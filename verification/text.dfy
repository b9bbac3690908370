/** Character and string helpers shared by the modules that handle text.
    Whitespace is the full set that Python's str.isspace accepts; letters,
    digits and case are those of the ASCII range: lower-casing maps 'A'..'Z'
    only. */
module Text {
  import opened Common

  predicate IsUpper(c: char) { 'A' <= c <= 'Z' }
  predicate IsLowerLetter(c: char) { 'a' <= c <= 'z' }
  predicate IsAlpha(c: char) { IsUpper(c) || IsLowerLetter(c) }
  predicate IsDigit(c: char) { '0' <= c <= '9' }

  /** str.isspace: space, \t \n \v \f \r, the separators \x1c..\x1f and
      the Unicode spaces, which str.split() and str.strip() also use. */
  predicate IsSpace(c: char) {
    var n := c as int;
    n == 0x20 || (9 <= n <= 13) || (0x1c <= n <= 0x1f) || n == 0x85 || n == 0xa0 || n == 0x1680
    || (0x2000 <= n <= 0x200a) || n == 0x2028 || n == 0x2029 || n == 0x202f || n == 0x205f || n == 0x3000
  }

  function Lower(c: char): (r: char)
    ensures !IsUpper(r)
    ensures IsUpper(c) ==> IsLowerLetter(r)
    ensures !IsUpper(c) ==> r == c
  {
    if IsUpper(c) then (c as int + 32) as char else c
  }

  function Upper(c: char): (r: char)
    ensures IsLowerLetter(c) ==> IsUpper(r)
    ensures !IsLowerLetter(c) ==> r == c
  {
    if IsLowerLetter(c) then (c as int - 32) as char else c
  }

  /** str.lower */
  function LowerStr(s: string): (r: string)
    ensures |r| == |s|
    ensures forall i :: 0 <= i < |s| ==> r[i] == Lower(s[i])
  {
    seq(|s|, i requires 0 <= i < |s| => Lower(s[i]))
  }

  lemma LowerStrIdempotent(s: string)
    ensures LowerStr(LowerStr(s)) == LowerStr(s)
  {
  }

  lemma LowerStrAppend(a: string, b: string)
    ensures LowerStr(a + b) == LowerStr(a) + LowerStr(b)
  {
  }

  /** Element-wise lower-casing of a word list. */
  function LowerAll(ws: seq<string>): (r: seq<string>)
    ensures |r| == |ws|
    ensures forall i :: 0 <= i < |ws| ==> r[i] == LowerStr(ws[i])
  {
    seq(|ws|, i requires 0 <= i < |ws| => LowerStr(ws[i]))
  }

  // ----------------------------------------------------------------- strip

  function LStrip(s: string): string {
    if s != [] && IsSpace(s[0]) then LStrip(s[1..]) else s
  }

  function RStrip(s: string): string {
    if s != [] && IsSpace(s[|s| - 1]) then RStrip(s[..|s| - 1]) else s
  }

  /** str.strip() */
  function Strip(s: string): string {
    RStrip(LStrip(s))
  }

  predicate AllSpace(s: string) {
    forall i :: 0 <= i < |s| ==> IsSpace(s[i])
  }

  lemma {:induction false} LStripBlank(s: string)
    ensures LStrip(s) == [] <==> AllSpace(s)
    ensures LStrip(s) != [] ==> !IsSpace(LStrip(s)[0])
  {
    if s != [] && IsSpace(s[0]) {
      LStripBlank(s[1..]);
      if LStrip(s) == [] {
        forall i | 0 <= i < |s| ensures IsSpace(s[i]) {
          if i > 0 { assert s[1..][i - 1] == s[i]; }
        }
      }
    }
  }

  lemma {:induction false} RStripEmpty(s: string)
    ensures RStrip(s) == [] <==> AllSpace(s)
  {
    if s != [] && IsSpace(s[|s| - 1]) {
      RStripEmpty(s[..|s| - 1]);
      if RStrip(s) == [] {
        forall i | 0 <= i < |s| ensures IsSpace(s[i]) {
          if i < |s| - 1 { assert s[..|s| - 1][i] == s[i]; }
        }
      }
    }
  }

  /** A string strips to "" exactly when it is all whitespace. */
  lemma StripBlank(s: string)
    ensures Strip(s) == [] <==> AllSpace(s)
  {
    LStripBlank(s);
    RStripEmpty(LStrip(s));
    if LStrip(s) != [] {
      assert !AllSpace(LStrip(s));
    }
  }

  /** Whitespace around a string with none at its ends strips away. */
  lemma StripAround(pre: string, x: string, post: string)
    requires AllSpace(pre) && AllSpace(post)
    requires x != [] && !IsSpace(x[0]) && !IsSpace(x[|x| - 1])
    ensures Strip(pre + x + post) == x
  {
    assert pre + x + post == pre + (x + post);
    LStripSpace(pre, x + post);
    RStripSpace(x, post);
  }

  lemma {:induction false} LStripSpace(pre: string, rest: string)
    requires AllSpace(pre) && rest != [] && !IsSpace(rest[0])
    ensures LStrip(pre + rest) == rest
  {
    if pre == [] {
      assert pre + rest == rest;
    } else {
      assert (pre + rest)[1..] == pre[1..] + rest;
      LStripSpace(pre[1..], rest);
    }
  }

  lemma {:induction false} RStripSpace(x: string, post: string)
    requires AllSpace(post) && x != [] && !IsSpace(x[|x| - 1])
    ensures RStrip(x + post) == x
  {
    if post == [] {
      assert x + post == x;
    } else {
      var init := post[..|post| - 1];
      assert (x + post)[..|x + post| - 1] == x + init;
      RStripSpace(x, init);
    }
  }

  /** A string with no whitespace at either end strips to itself. */
  lemma StripNoop(s: string)
    requires s != [] ==> !IsSpace(s[0]) && !IsSpace(s[|s| - 1])
    ensures Strip(s) == s
  {
  }

  // ------------------------------------------------------------------ runs

  /** The maximal runs of characters that satisfy p, left to right. Both
      `re.findall(r"\b\w+\b", ...)` and `str.split()` are runs. */
  function Runs(s: string, p: char -> bool): seq<string> {
    RunsFrom(s, p, "")
  }

  function RunsFrom(s: string, p: char -> bool, cur: string): seq<string>
    decreases |s|
  {
    if s == [] then (if cur == [] then [] else [cur])
    else if p(s[0]) then RunsFrom(s[1..], p, cur + [s[0]])
    else (if cur == [] then [] else [cur]) + RunsFrom(s[1..], p, "")
  }

  /** The characters of s that satisfy p, in order. */
  function Filter(s: string, p: char -> bool): (r: string)
    ensures forall i :: 0 <= i < |r| ==> p(r[i])
  {
    if s == [] then [] else (if p(s[0]) then [s[0]] else []) + Filter(s[1..], p)
  }

  function Concat(ws: seq<string>): string {
    if ws == [] then [] else ws[0] + Concat(ws[1..])
  }

  lemma {:induction false} ConcatAppend(a: seq<string>, b: seq<string>)
    ensures Concat(a + b) == Concat(a) + Concat(b)
  {
    if a == [] {
      assert a + b == b;
    } else {
      assert (a + b)[1..] == a[1..] + b;
      ConcatAppend(a[1..], b);
    }
  }

  predicate RunsWellFormed(rs: seq<string>, p: char -> bool) {
    forall k :: 0 <= k < |rs| ==> rs[k] != [] && forall i :: 0 <= i < |rs[k]| ==> p(rs[k][i])
  }

  lemma {:induction false} RunsFromProps(s: string, p: char -> bool, cur: string)
    requires forall i :: 0 <= i < |cur| ==> p(cur[i])
    ensures RunsWellFormed(RunsFrom(s, p, cur), p)
    ensures Concat(RunsFrom(s, p, cur)) == cur + Filter(s, p)
    decreases |s|
  {
    var head: seq<string> := if cur == [] then [] else [cur];
    if s == [] {
    } else if p(s[0]) {
      RunsFromProps(s[1..], p, cur + [s[0]]);
      assert cur + [s[0]] + Filter(s[1..], p) == cur + Filter(s, p);
    } else {
      RunsFromProps(s[1..], p, "");
      ConcatAppend(head, RunsFrom(s[1..], p, ""));
    }
  }

  /** Every run is non-empty, made of p-characters, and the runs together
      are exactly the p-characters of s. */
  lemma RunsProps(s: string, p: char -> bool)
    ensures RunsWellFormed(Runs(s, p), p)
    ensures Concat(Runs(s, p)) == Filter(s, p)
  {
    RunsFromProps(s, p, "");
  }

  /** str.split() with no argument: the maximal runs of non-whitespace. */
  function SplitWs(s: string): seq<string> {
    Runs(s, c => !IsSpace(c))
  }

  lemma {:induction false} RunsFromNoneEmpty(s: string, p: char -> bool)
    requires forall i :: 0 <= i < |s| ==> !p(s[i])
    ensures RunsFrom(s, p, "") == []
    decreases |s|
  {
    if s != [] {
      RunsFromNoneEmpty(s[1..], p);
    }
  }

  lemma {:induction false} RunsFromSomeNonEmpty(s: string, p: char -> bool, cur: string)
    requires cur != [] || exists i :: 0 <= i < |s| && p(s[i])
    ensures RunsFrom(s, p, cur) != []
    decreases |s|
  {
    if s != [] {
      if p(s[0]) {
        RunsFromSomeNonEmpty(s[1..], p, cur + [s[0]]);
      } else if cur == [] {
        var i :| 0 <= i < |s| && p(s[i]);
        assert s[1..][i - 1] == s[i];
        RunsFromSomeNonEmpty(s[1..], p, "");
      }
    }
  }

  /** Splitting a blank string yields no words, any other string at least one. */
  lemma SplitWsBlank(s: string)
    ensures SplitWs(s) == [] <==> AllSpace(s)
  {
    if AllSpace(s) {
      RunsFromNoneEmpty(s, c => !IsSpace(c));
    } else {
      RunsFromSomeNonEmpty(s, c => !IsSpace(c), "");
    }
  }

  lemma SplitWsWords(s: string)
    ensures forall k :: 0 <= k < |SplitWs(s)| ==>
      SplitWs(s)[k] != [] && !IsSpace(SplitWs(s)[k][0]) && !IsSpace(SplitWs(s)[k][|SplitWs(s)[k]| - 1])
  {
    RunsProps(s, c => !IsSpace(c));
  }

  // ------------------------------------------------------------------ join

  /** sep.join(ws) */
  function Join(sep: string, ws: seq<string>): string {
    if ws == [] then [] else if |ws| == 1 then ws[0] else ws[0] + sep + Join(sep, ws[1..])
  }

  lemma {:induction false} JoinEnds(sep: string, ws: seq<string>)
    requires ws != [] && forall k :: 0 <= k < |ws| ==> ws[k] != []
    ensures Join(sep, ws) != []
    ensures Join(sep, ws)[0] == ws[0][0]
    ensures Join(sep, ws)[|Join(sep, ws)| - 1] == ws[|ws| - 1][|ws[|ws| - 1]| - 1]
  {
    if |ws| > 1 {
      var tail := ws[1..];
      JoinEnds(sep, tail);
      var rest := Join(sep, tail);
      assert Join(sep, ws) == ws[0] + sep + rest;
      assert tail[|tail| - 1] == ws[|ws| - 1];
    }
  }

  /** Joining words that have no whitespace at their ends gives a string
      that `strip()` leaves alone, and it is empty only for no words. */
  lemma JoinWordsStripped(ws: seq<string>)
    requires forall k :: 0 <= k < |ws| ==> ws[k] != [] && !IsSpace(ws[k][0]) && !IsSpace(ws[k][|ws[k]| - 1])
    ensures Strip(Join(" ", ws)) == Join(" ", ws)
    ensures Join(" ", ws) == [] <==> ws == []
  {
    if ws != [] {
      JoinEnds(" ", ws);
    }
  }

  // ------------------------------------------------------------- substring

  /** needle occurs in hay starting at index i. */
  predicate MatchAt(needle: string, hay: string, i: int) {
    0 <= i <= |hay| - |needle| && hay[i..i + |needle|] == needle
  }

  /** Python `needle in hay` for strings. */
  ghost predicate IsSubstring(needle: string, hay: string) {
    exists i :: MatchAt(needle, hay, i)
  }

  /** A decidable version of IsSubstring, for code. */
  function Contains(needle: string, hay: string): (r: bool)
    ensures r <==> IsSubstring(needle, hay)
    decreases |hay|
  {
    if |needle| > |hay| then false
    else if hay[..|needle|] == needle then assert MatchAt(needle, hay, 0); true
    else
      var r := Contains(needle, hay[1..]);
      assert r ==> IsSubstring(needle, hay) by {
        if r {
          var i :| MatchAt(needle, hay[1..], i);
          assert hay[i + 1..i + 1 + |needle|] == hay[1..][i..i + |needle|];
          assert MatchAt(needle, hay, i + 1);
        }
      }
      assert IsSubstring(needle, hay) ==> r by {
        if IsSubstring(needle, hay) {
          var i :| MatchAt(needle, hay, i);
          assert i != 0;
          assert hay[1..][i - 1..i - 1 + |needle|] == hay[i..i + |needle|];
          assert MatchAt(needle, hay[1..], i - 1);
        }
      }
      r
  }

  // ------------------------------------------------------------- integers

  /** str(n) for a natural number. */
  function NatToString(n: nat): (r: string)
    ensures r != []
    decreases n
  {
    var d := [(('0' as int) + n % 10) as char];
    if n < 10 then d else NatToString(n / 10) + d
  }
}
