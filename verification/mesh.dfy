/** The gossip node of d/pro_mesh.py: a byte-level cipher (repeating-key
    XOR under Base64), a set of peers and a table of adapters that gossip
    messages merge into by version and, on a tie, by the sum of weights.
    The UDP transport, pings, health checks and the JSON layer of
    encrypt/decrypt are outside the model: a received datagram is given as
    the message it decodes to. */
module ProMesh {
  import opened Common
  import opened Dicts
  import opened Text

  // ------------------------------------------------------------ the cipher

  /** `_xor_bytes`: each byte XORed with the key byte at the same position
      modulo the key length; an empty key leaves the data as it is. */
  function XorBytes(data: seq<bv8>, key: seq<bv8>): (r: seq<bv8>)
    ensures |r| == |data|
    ensures key == [] ==> r == data
    ensures key != [] ==> forall i :: 0 <= i < |data| ==> r[i] == data[i] ^ key[i % |key|]
  {
    if key == [] then data else seq(|data|, i requires 0 <= i < |data| => data[i] ^ key[i % |key|])
  }

  /** The Base64 digit of a 6-bit value (section 4 of RFC 4648). */
  function EncChar(v: bv8): (c: char)
    requires v < 64
  {
    var n := v as int;
    if n < 26 then (('A' as int) + n) as char
    else if n < 52 then (('a' as int) + n - 26) as char
    else if n < 62 then (('0' as int) + n - 52) as char
    else if n == 62 then '+' else '/'
  }

  /** The 6-bit value of a Base64 digit, None for any other character. */
  function DecChar(c: char): (r: Option<bv8>)
    ensures r.Some? ==> r.value < 64
  {
    if 'A' <= c <= 'Z' then Some((c as int - 'A' as int) as bv8)
    else if 'a' <= c <= 'z' then Some((c as int - 'a' as int + 26) as bv8)
    else if '0' <= c <= '9' then Some((c as int - '0' as int + 52) as bv8)
    else if c == '+' then Some(62)
    else if c == '/' then Some(63)
    else None
  }

  /** The four 6-bit values that three bytes split into. */
  function S0(b0: bv8): bv8 { b0 >> 2 }
  function S1(b0: bv8, b1: bv8): bv8 { ((b0 & 3) << 4) | (b1 >> 4) }
  function S2(b1: bv8, b2: bv8): bv8 { ((b1 & 15) << 2) | (b2 >> 6) }
  function S3(b2: bv8): bv8 { b2 & 63 }

  /** The sextets of up to three bytes, a missing byte counting as 0. */
  function Sextets(g: seq<bv8>): (v: seq<bv8>)
    requires 1 <= |g| <= 3
    ensures |v| == 4 && v[0] < 64 && v[1] < 64 && v[2] < 64 && v[3] < 64
  {
    var b0 := g[0];
    var b1 := if |g| > 1 then g[1] else 0;
    var b2 := if |g| > 2 then g[2] else 0;
    SextetBounds(b0, b1, b2);
    [S0(b0), S1(b0, b1), S2(b1, b2), S3(b2)]
  }

  /** Three bytes, or the one or two left at the end, as four characters,
      padded with '='. */
  function EncodeGroup(g: seq<bv8>): (r: string)
    requires 1 <= |g| <= 3
    ensures |r| == 4
  {
    var v := Sextets(g);
    [EncChar(v[0]), EncChar(v[1]), if |g| > 1 then EncChar(v[2]) else '=', if |g| > 2 then EncChar(v[3]) else '=']
  }

  /** `base64.b64encode` */
  function Encode(s: seq<bv8>): (r: string)
    ensures |r| % 4 == 0
    ensures r == [] <==> s == []
    decreases |s|
  {
    if s == [] then []
    else if |s| <= 3 then EncodeGroup(s)
    else EncodeGroup(s[..3]) + Encode(s[3..])
  }

  /** The three bytes that four 6-bit values join into. */
  function B0(v0: bv8, v1: bv8): bv8 { (v0 << 2) | (v1 >> 4) }
  function B1(v1: bv8, v2: bv8): bv8 { ((v1 & 15) << 4) | (v2 >> 2) }
  function B2(v2: bv8, v3: bv8): bv8 { ((v2 & 3) << 6) | v3 }

  /** binascii's Base64 reader in the lenient mode that `b64decode` uses by
      default (validate=False). Characters that are neither Base64 digits
      nor '=' are skipped. Each digit takes the next place of the current
      quad, and a byte is emitted as soon as its bits are complete. A '='
      after two or three digits of a quad counts towards the quad's padding,
      and a completed padding ends the input there; a '=' earlier in a quad
      is skipped. Input that ends inside a quad raises. pos is the place in
      the quad, prev the digit before it and pads the '=' counted. */
  function Lenient(s: string, pos: int, prev: bv8, pads: int, out: seq<bv8>): (r: Result<seq<bv8>>)
    requires 0 <= pos < 4
    decreases |s|
  {
    if s == [] then (if pos == 0 then Ok(out) else Err(DecodeError))
    else if s[0] == '=' then
      if pos >= 2 && pos + pads + 1 >= 4 then Ok(out)
      else Lenient(s[1..], pos, prev, if pos >= 2 then pads + 1 else pads, out)
    else match DecChar(s[0])
      case None => Lenient(s[1..], pos, prev, pads, out)
      case Some(v) =>
        if pos == 0 then Lenient(s[1..], 1, v, 0, out)
        else if pos == 1 then Lenient(s[1..], 2, v, 0, out + [B0(prev, v)])
        else if pos == 2 then Lenient(s[1..], 3, v, 0, out + [B1(prev, v)])
        else Lenient(s[1..], 0, 0, 0, out + [B2(prev, v)])
  }

  /** `base64.b64decode(data)` */
  function Decode(s: string): Result<seq<bv8>> {
    Lenient(s, 0, 0, 0, [])
  }

  /** encrypt below the JSON layer: XOR with the key, then Base64. */
  function EncryptBytes(raw: seq<bv8>, key: seq<bv8>): string {
    Encode(XorBytes(raw, key))
  }

  /** decrypt below the JSON layer: Base64-decode, then XOR with the key. */
  function DecryptBytes(data: string, key: seq<bv8>): Result<seq<bv8>> {
    match Decode(data)
    case Err(e) => Err(e)
    case Ok(b) => Ok(XorBytes(b, key))
  }

  // ------------------------------------------------------------ the node

  /** A JSON scalar inside a message's peer list. */
  datatype JVal = JStr(s: string) | JInt(i: int)

  /** A peer address; a join message may carry a non-string host. */
  datatype Peer = Peer(host: JVal, port: int)

  type Weights = ODict<string, real>

  /** A stored adapter, as update_adapter and gossip record it. */
  datatype Adapter = Adapter(version: int, weights: Weights)

  /** An adapter as a gossip message carries it; either field may be missing. */
  datatype Entry = Entry(version: Option<int>, weights: Option<Weights>)

  /** The datagrams a node understands, once decrypted; a missing field is None. */
  datatype Message =
    | Gossip(adapters: Option<ODict<string, Entry>>)
    | Ping
    | Pong
    | Join(peer: Option<seq<JVal>>)
    | Leave(peer: Option<seq<JVal>>)
    | Other

  /** The key a node uses when given none, or an empty one: b"mesh-secret". */
  const DefaultKey: seq<bv8> := [109, 101, 115, 104, 45, 115, 101, 99, 114, 101, 116]

  /** The conflict metric: the sum of the weights, in dictionary order. */
  function Metric(w: Weights): real {
    SumReal(seq(|w.keys|, i requires 0 <= i < |w.keys| => MapGet(w.vals, w.keys[i], 0.0)))
  }

  function EmptyWeights(): Weights {
    ODict([], map[])
  }

  /** The adapter a gossip entry is stored as: a missing version is 0 and
      missing weights are {}. */
  function AsAdapter(r: Entry): Adapter {
    Adapter(r.version.GetOr(0), r.weights.GetOr(EmptyWeights()))
  }

  /** One step of `_handle_gossip`: take the remote entry when there is no
      local one or its version is higher, or when the versions are equal
      and its weights sum to strictly more; otherwise keep the local one. */
  function Resolve(local: Option<Adapter>, r: Entry): Adapter {
    var remote := AsAdapter(r);
    match local
    case None => remote
    case Some(l) =>
      if remote.version > l.version then remote
      else if remote.version == l.version && Metric(remote.weights) > Metric(l.weights) then remote
      else l
  }

  function Lookup(m: map<string, Adapter>, name: string): Option<Adapter> {
    if name in m then Some(m[name]) else None
  }

  /** The names among the first i keys. */
  function KeySet(keys: seq<string>, i: nat): set<string>
    requires i <= |keys|
  {
    if i == 0 then {} else KeySet(keys, i - 1) + {keys[i - 1]}
  }

  /** The adapter table after merging the remote entries named in `names`. */
  function MergeAll(local: map<string, Adapter>, remote: map<string, Entry>, names: set<string>): map<string, Adapter> {
    map name | name in local.Keys + (names * remote.Keys) ::
      if name in names && name in remote then Resolve(Lookup(local, name), remote[name]) else local[name]
  }

  /** int() of a JSON scalar: a number as it is, a string when it spells a
      decimal integer, a ValueError otherwise. */
  function PyInt(v: JVal): Result<int> {
    match v
    case JInt(i) => Ok(i)
    case JStr(s) => ParseInt(s)
  }

  /** The peer a join or leave message names: None unless the list has
      exactly two elements. */
  function PeerOf(peer: Option<seq<JVal>>): Option<Result<Peer>> {
    var p := peer.GetOr([]);
    if |p| != 2 then None
    else match PyInt(p[1])
      case Err(e) => Some(Err(e))
      case Ok(port) => Some(Ok(Peer(p[0], port)))
  }

  class MeshNode {
    const host: string
    var port: int
    const key: seq<bv8>
    var peers: set<Peer>
    var adapters: map<string, Adapter>

    /** A node with no peers and no adapters; no key, or an empty one,
        means the default key. */
    constructor (host: string, port: int, key: Option<seq<bv8>>)
      ensures this.host == host && this.port == port
      ensures this.key == (if key.Some? && key.value != [] then key.value else DefaultKey)
      ensures peers == {} && adapters == map[]
    {
      this.host := host;
      this.port := port;
      this.key := if key.Some? && key.value != [] then key.value else DefaultKey;
      peers := {};
      adapters := map[];
    }

    method JoinPeer(host: string, port: int)
      modifies this
      ensures peers == old(peers) + {Peer(JStr(host), port)}
      ensures adapters == old(adapters) && this.port == old(this.port)
    {
      peers := peers + {Peer(JStr(host), port)};
    }

    method LeavePeer(host: string, port: int)
      modifies this
      ensures peers == old(peers) - {Peer(JStr(host), port)}
      ensures adapters == old(adapters) && this.port == old(this.port)
    {
      peers := peers - {Peer(JStr(host), port)};
    }

    /** leave: close the transport and forget every peer. */
    method LeaveMesh()
      modifies this
      ensures peers == {}
      ensures adapters == old(adapters) && port == old(port)
    {
      peers := {};
    }

    method UpdateAdapter(name: string, weights: Weights, version: int)
      modifies this
      ensures adapters == old(adapters)[name := Adapter(version, weights)]
      ensures peers == old(peers) && port == old(port)
    {
      adapters := adapters[name := Adapter(version, weights)];
    }

    /** `_handle_gossip`: resolve each remote entry against the local table. */
    method HandleGossip(remote: ODict<string, Entry>)
      requires Dicts.Valid(remote)
      modifies this
      ensures adapters == MergeAll(old(adapters), remote.vals, remote.vals.Keys)
      ensures peers == old(peers) && port == old(port)
    {
      var keys, table := remote.keys, adapters;
      for i := 0 to |keys|
        invariant table == MergeAll(adapters, remote.vals, KeySet(keys, i))
        invariant adapters == old(adapters) && peers == old(peers) && port == old(port)
      {
        var name := keys[i];
        MergeStep(adapters, remote, i);
        table := table[name := Resolve(Lookup(table, name), remote.vals[name])];
      }
      KeySetAll(remote);
      adapters := table;
    }

    /** datagram_received, after decryption: gossip merges, join and leave
        change the peers when the peer list has two elements (and raise
        when its port is not an integer), and every other message leaves
        the state alone. */
    method Receive(msg: Message) returns (r: Result<()>)
      requires msg.Gossip? && msg.adapters.Some? ==> Dicts.Valid(msg.adapters.value)
      modifies this
      ensures port == old(port)
      ensures msg.Gossip? ==> (r == Ok(()) && peers == old(peers)
        && adapters == MergeAll(old(adapters), msg.adapters.GetOr(ODict([], map[])).vals, msg.adapters.GetOr(ODict([], map[])).vals.Keys))
      ensures (msg.Join? || msg.Leave?) ==> adapters == old(adapters)
      ensures (msg.Join? || msg.Leave?) ==> (match PeerOf(msg.peer)
        case None => r == Ok(()) && peers == old(peers)
        case Some(Err(e)) => r == Err(e) && peers == old(peers)
        case Some(Ok(p)) => r == Ok(()) && peers == (if msg.Join? then old(peers) + {p} else old(peers) - {p}))
      ensures (msg.Ping? || msg.Pong? || msg.Other?) ==> r == Ok(()) && peers == old(peers) && adapters == old(adapters)
    {
      r := Ok(());
      match msg
      case Gossip(a) =>
        HandleGossip(a.GetOr(ODict([], map[])));
      case Join(peer) =>
        var p := PeerOf(peer);
        if p.Some? {
          if p.value.Err? {
            return Err(p.value.error);
          }
          peers := peers + {p.value.value};
        }
      case Leave(peer) =>
        var p := PeerOf(peer);
        if p.Some? {
          if p.value.Err? {
            return Err(p.value.error);
          }
          peers := peers - {p.value.value};
        }
      case Ping =>
      case Pong =>
      case Other =>
    }
  }

  // ------------------------------------------------------------ integers

  function DigitsValue(s: string): nat
    requires forall i :: 0 <= i < |s| ==> IsDigit(s[i])
  {
    if s == [] then 0
    else
      assert IsDigit(s[|s| - 1]);
      10 * DigitsValue(s[..|s| - 1]) + (s[|s| - 1] as int - '0' as int)
  }

  /** Decimal digits with single underscores between them, the form int()
      accepts after the sign. */
  predicate Numeral(s: string) {
    s != [] && IsDigit(s[0]) && IsDigit(s[|s| - 1])
    && (forall i :: 0 <= i < |s| ==> IsDigit(s[i]) || s[i] == '_')
    && (forall i :: 0 < i < |s| ==> s[i] == '_' ==> s[i - 1] != '_')
  }

  /** The digits of a string, underscores dropped. */
  function DigitsOf(s: string): (r: string)
    ensures forall i :: 0 <= i < |r| ==> IsDigit(r[i])
  {
    if s == [] then [] else (if IsDigit(s[0]) then [s[0]] else []) + DigitsOf(s[1..])
  }

  /** int() of a string: whitespace around it is ignored, then an optional
      sign and a numeral; anything else is a ValueError. */
  function ParseInt(s: string): Result<int> {
    ParseSigned(Strip(s))
  }

  /** An optional sign and a numeral. */
  function ParseSigned(t: string): Result<int> {
    var signed := t != [] && (t[0] == '-' || t[0] == '+');
    var body := if signed then t[1..] else t;
    if Numeral(body) then
      var n: int := DigitsValue(DigitsOf(body));
      Ok(if signed && t[0] == '-' then -n else n)
    else Err(ValueError)
  }

  // ------------------------------------------------------------ properties

  /** XOR with the same key twice gives the data back. */
  lemma XorInvolution(data: seq<bv8>, key: seq<bv8>)
    ensures XorBytes(XorBytes(data, key), key) == data
  {
    if key != [] {
      var once := XorBytes(data, key);
      var twice := XorBytes(once, key);
      forall i | 0 <= i < |data|
        ensures twice[i] == data[i]
      {
        XorTwice(data[i], key[i % |key|]);
      }
    }
  }

  lemma XorTwice(a: bv8, b: bv8)
    ensures (a ^ b) ^ b == a
  {
  }

  /** Every 6-bit value is spelled by a digit that reads back as itself. */
  lemma DecEnc(v: bv8)
    requires v < 64
    ensures DecChar(EncChar(v)) == Some(v)
    ensures EncChar(v) != '='
  {
    if v < 26 {
      DecUpper(v);
    } else if v < 52 {
      DecLower(v);
    } else if v < 62 {
      DecDigit(v);
    }
  }

  lemma DecUpper(v: bv8)
    requires v < 26
    ensures 'A' <= EncChar(v) <= 'Z' && DecChar(EncChar(v)) == Some(v)
  {
    var c := EncChar(v);
    assert c as int - 'A' as int == v as int;
  }

  lemma DecLower(v: bv8)
    requires 26 <= v < 52
    ensures 'a' <= EncChar(v) <= 'z' && DecChar(EncChar(v)) == Some(v)
  {
    var c := EncChar(v);
    assert c as int - 'a' as int + 26 == v as int;
  }

  lemma DecDigit(v: bv8)
    requires 52 <= v < 62
    ensures '0' <= EncChar(v) <= '9' && DecChar(EncChar(v)) == Some(v)
  {
    var c := EncChar(v);
    assert c as int - '0' as int + 52 == v as int;
  }

  lemma SextetBounds(b0: bv8, b1: bv8, b2: bv8)
    ensures S0(b0) < 64 && S1(b0, b1) < 64 && S2(b1, b2) < 64 && S3(b2) < 64
  {
  }

  /** Each byte is rebuilt from the two sextets it was split across, and a
      missing byte leaves the sextets after it zero. */
  lemma JoinBytes(b0: bv8, b1: bv8, b2: bv8)
    ensures B0(S0(b0), S1(b0, b1)) == b0
    ensures B1(S1(b0, b1), S2(b1, b2)) == b1
    ensures B2(S2(b1, b2), S3(b2)) == b2
    ensures S2(0, 0) == 0 && S3(0) == 0
  {
  }

  /** A Base64 digit is read as the sextet it spells. */
  lemma ReadDigit(v: bv8, rest: string, pos: int, prev: bv8, pads: int, out: seq<bv8>)
    requires v < 64 && 0 <= pos < 4
    ensures var s := [EncChar(v)] + rest;
      Lenient(s, pos, prev, pads, out) ==
        if pos == 0 then Lenient(rest, 1, v, 0, out)
        else if pos == 1 then Lenient(rest, 2, v, 0, out + [B0(prev, v)])
        else if pos == 2 then Lenient(rest, 3, v, 0, out + [B1(prev, v)])
        else Lenient(rest, 0, 0, 0, out + [B2(prev, v)])
  {
    DecEnc(v);
    assert ([EncChar(v)] + rest)[1..] == rest;
  }

  /** A full group of four digits is read as its three bytes. */
  lemma ReadThree(b0: bv8, b1: bv8, b2: bv8, rest: string, out: seq<bv8>)
    ensures Lenient(EncodeGroup([b0, b1, b2]) + rest, 0, 0, 0, out) == Lenient(rest, 0, 0, 0, out + [b0, b1, b2])
  {
    SextetBounds(b0, b1, b2);
    JoinBytes(b0, b1, b2);
    var v0, v1, v2, v3 := S0(b0), S1(b0, b1), S2(b1, b2), S3(b2);
    var e := EncodeGroup([b0, b1, b2]);
    assert e == [EncChar(v0), EncChar(v1), EncChar(v2), EncChar(v3)];
    var r3 := [EncChar(v3)] + rest;
    var r2 := [EncChar(v2)] + r3;
    var r1 := [EncChar(v1)] + r2;
    assert e + rest == [EncChar(v0)] + r1;
    assert Lenient([EncChar(v0)] + r1, 0, 0, 0, out) == Lenient(r1, 1, v0, 0, out) by {
      ReadDigit(v0, r1, 0, 0, 0, out);
    }
    assert Lenient(r1, 1, v0, 0, out) == Lenient(r2, 2, v1, 0, out + [b0]) by {
      ReadDigit(v1, r2, 1, v0, 0, out);
    }
    assert Lenient(r2, 2, v1, 0, out + [b0]) == Lenient(r3, 3, v2, 0, out + [b0] + [b1]) by {
      ReadDigit(v2, r3, 2, v1, 0, out + [b0]);
    }
    assert Lenient(r3, 3, v2, 0, out + [b0] + [b1]) == Lenient(rest, 0, 0, 0, out + [b0] + [b1] + [b2]) by {
      ReadDigit(v3, rest, 3, v2, 0, out + [b0] + [b1]);
    }
    assert out + [b0] + [b1] + [b2] == out + [b0, b1, b2];
  }

  /** A group of two digits and "==" is read as its one byte, and the
      completed padding ends the input: whatever follows is ignored. */
  lemma ReadOne(b0: bv8, rest: string, out: seq<bv8>)
    ensures Lenient(EncodeGroup([b0]) + rest, 0, 0, 0, out) == Ok(out + [b0])
  {
    SextetBounds(b0, 0, 0);
    JoinBytes(b0, 0, 0);
    var v0, v1 := S0(b0), S1(b0, 0);
    var e := EncodeGroup([b0]);
    assert e + rest == [EncChar(v0)] + ([EncChar(v1)] + ("==" + rest));
    ReadDigit(v0, [EncChar(v1)] + ("==" + rest), 0, 0, 0, out);
    ReadDigit(v1, "==" + rest, 1, v0, 0, out);
    assert ("==" + rest)[1..] == "=" + rest;
  }

  /** A group of three digits and "=" is read as its two bytes, and the
      completed padding ends the input: whatever follows is ignored. */
  lemma ReadTwo(b0: bv8, b1: bv8, rest: string, out: seq<bv8>)
    ensures Lenient(EncodeGroup([b0, b1]) + rest, 0, 0, 0, out) == Ok(out + [b0, b1])
  {
    SextetBounds(b0, b1, 0);
    JoinBytes(b0, b1, 0);
    var v0, v1, v2 := S0(b0), S1(b0, b1), S2(b1, 0);
    var e := EncodeGroup([b0, b1]);
    assert e + rest == [EncChar(v0)] + ([EncChar(v1)] + ([EncChar(v2)] + ("=" + rest)));
    ReadDigit(v0, [EncChar(v1)] + ([EncChar(v2)] + ("=" + rest)), 0, 0, 0, out);
    ReadDigit(v1, [EncChar(v2)] + ("=" + rest), 1, v0, 0, out);
    ReadDigit(v2, "=" + rest, 2, v1, 0, out + [b0]);
    assert out + [b0] + [b1] == out + [b0, b1];
  }

  /** Reading an encoding appends the encoded bytes to what was read. */
  lemma {:induction false} ReadEncoding(s: seq<bv8>, out: seq<bv8>)
    ensures Lenient(Encode(s), 0, 0, 0, out) == Ok(out + s)
    decreases |s|
  {
    if s == [] {
      assert out + s == out;
    } else if |s| == 1 {
      assert s == [s[0]];
      ReadOne(s[0], [], out);
      assert EncodeGroup(s) + [] == Encode(s);
    } else if |s| == 2 {
      assert s == [s[0], s[1]];
      ReadTwo(s[0], s[1], [], out);
      assert EncodeGroup(s) + [] == Encode(s);
    } else {
      var g := s[..3];
      assert g == [s[0], s[1], s[2]];
      var rest := if |s| == 3 then [] else s[3..];
      assert Encode(s) == EncodeGroup(g) + Encode(rest) by {
        if |s| == 3 {
          assert s == g;
          assert Encode(s) == EncodeGroup(g) + [];
        }
      }
      ReadThree(s[0], s[1], s[2], Encode(rest), out);
      ReadEncoding(rest, out + g);
      assert s == g + rest;
      assert out + g + rest == out + s;
    }
  }

  /** Section 4 of RFC 4648: decoding an encoding gives the bytes back. */
  lemma Base64RoundTrip(s: seq<bv8>)
    ensures Decode(Encode(s)) == Ok(s)
  {
    ReadEncoding(s, []);
    assert [] + s == s;
  }

  /** b64decode without validation stops at a completed padding: a
      trailing newline, or a second encoding run on after the first, is
      not read. */
  lemma LenientExamples()
    ensures Decode("QQ==\n") == Ok([65])
    ensures Decode("QQ==QQ==") == Ok([65])
  {
    var q := EncodeGroup([65]);
    assert q == "QQ==" by {
      SextetBounds(65, 0, 0);
      assert S0(65) == 16 && S1(65, 0) == 16;
    }
    ReadOne(65, "\n", []);
    ReadOne(65, "QQ==", []);
    assert q + "\n" == "QQ==\n";
    assert [] + [65 as bv8] == [65];
    assert q + "QQ==" == "QQ==QQ==";
  }

  /** decrypt inverts encrypt below the JSON layer, whatever the key. */
  lemma DecryptEncrypt(raw: seq<bv8>, key: seq<bv8>)
    ensures DecryptBytes(EncryptBytes(raw, key), key) == Ok(raw)
  {
    Base64RoundTrip(XorBytes(raw, key));
    XorInvolution(raw, key);
  }

  /** The merge rule: an unknown adapter or a higher remote version
      replaces the local entry, so the stored version becomes the larger
      of the two; a lower remote version is ignored; on equal versions the
      remote entry wins exactly when its weights sum to strictly more. */
  lemma ResolveRule(local: Option<Adapter>, r: Entry)
    ensures local.None? ==> Resolve(local, r) == AsAdapter(r)
    ensures local.Some? ==> Resolve(local, r).version == Max(local.value.version, AsAdapter(r).version)
    ensures local.Some? && AsAdapter(r).version > local.value.version ==> Resolve(local, r) == AsAdapter(r)
    ensures local.Some? && AsAdapter(r).version < local.value.version ==> Resolve(local, r) == local.value
    ensures local.Some? && AsAdapter(r).version == local.value.version ==>
      (Resolve(local, r) == AsAdapter(r) || Resolve(local, r) == local.value)
      && Metric(Resolve(local, r).weights) >= Metric(local.value.weights)
      && Metric(Resolve(local, r).weights) >= Metric(AsAdapter(r).weights)
      && (Metric(AsAdapter(r).weights) <= Metric(local.value.weights) ==> Resolve(local, r) == local.value)
  {
  }

  /** Merging never lowers a version, leaves every adapter the message does
      not name as it was, and keeps every local adapter. */
  lemma MergeKeeps(local: map<string, Adapter>, remote: map<string, Entry>, name: string)
    ensures var merged := MergeAll(local, remote, remote.Keys);
      (name in merged <==> name in local || name in remote)
      && (name in local && name !in remote ==> merged[name] == local[name])
      && (name in local ==> merged[name].version >= local[name].version)
      && (name !in local && name in remote ==> merged[name] == AsAdapter(remote[name]))
  {
    if name in local && name in remote {
      ResolveRule(Some(local[name]), remote[name]);
    }
  }

  /** Receiving the same gossip twice is the same as receiving it once. */
  lemma MergeIdempotent(local: map<string, Adapter>, remote: map<string, Entry>)
    ensures MergeAll(MergeAll(local, remote, remote.Keys), remote, remote.Keys) == MergeAll(local, remote, remote.Keys)
  {
    var once := MergeAll(local, remote, remote.Keys);
    var twice := MergeAll(once, remote, remote.Keys);
    forall name | name in once
      ensures name in twice && twice[name] == once[name]
    {
      if name in remote {
        ResolveTwice(Lookup(local, name), remote[name]);
      }
    }
  }

  lemma ResolveTwice(local: Option<Adapter>, r: Entry)
    ensures Resolve(Some(Resolve(local, r)), r) == Resolve(local, r)
  {
  }

  /** Two nodes that gossip one adapter to each other end up holding the
      same one, unless the versions are equal and the sums tie. */
  lemma Converge(a: Adapter, b: Adapter)
    requires a.version != b.version || Metric(a.weights) != Metric(b.weights)
    ensures Resolve(Some(a), Entry(Some(b.version), Some(b.weights))) == Resolve(Some(b), Entry(Some(a.version), Some(a.weights)))
  {
  }

  /** One remote entry merged on top of the first i. */
  lemma MergeStep(local: map<string, Adapter>, remote: ODict<string, Entry>, i: nat)
    requires Dicts.Valid(remote) && i < |remote.keys|
    ensures var name := remote.keys[i];
      var before := MergeAll(local, remote.vals, KeySet(remote.keys, i));
      before[name := Resolve(Lookup(before, name), remote.vals[name])]
      == MergeAll(local, remote.vals, KeySet(remote.keys, i + 1))
  {
    var keys := remote.keys;
    var name := keys[i];
    KeySetMembers(keys, i, name);
    assert name !in keys[..i];
    var before := MergeAll(local, remote.vals, KeySet(keys, i));
    assert Lookup(before, name) == Lookup(local, name);
  }

  lemma {:induction false} KeySetMembers(keys: seq<string>, i: nat, x: string)
    requires i <= |keys|
    ensures x in KeySet(keys, i) <==> x in keys[..i]
  {
    if i > 0 {
      KeySetMembers(keys, i - 1, x);
      assert keys[..i] == keys[..i - 1] + [keys[i - 1]];
    }
  }

  lemma KeySetAll(remote: ODict<string, Entry>)
    requires Dicts.Valid(remote)
    ensures KeySet(remote.keys, |remote.keys|) == remote.vals.Keys
  {
    forall x
      ensures x in KeySet(remote.keys, |remote.keys|) <==> x in remote.vals.Keys
    {
      KeySetMembers(remote.keys, |remote.keys|, x);
      assert remote.keys[..|remote.keys|] == remote.keys;
    }
  }

  /** int() reads back what str() wrote for a natural number, and its
      negation, whatever whitespace surrounds it. */
  lemma {:induction false} ParseNat(n: nat, pre: string, post: string)
    requires AllSpace(pre) && AllSpace(post)
    ensures ParseInt(pre + NatToString(n) + post) == Ok(n)
    ensures ParseInt(pre + ("-" + NatToString(n)) + post) == Ok(-(n as int))
  {
    NatNumeral(n);
    ParseNumeralOf(pre, NatToString(n), post, n);
    ParseNegationOf(pre, NatToString(n), post, n);
  }

  /** A numeral of value n with whitespace around it reads as n. */
  lemma {:induction false} ParseNumeralOf(pre: string, d: string, post: string, n: nat)
    requires AllSpace(pre) && AllSpace(post) && Numeral(d) && DigitsValue(DigitsOf(d)) == n
    ensures ParseInt(pre + d + post) == Ok(n)
  {
    ParseDigits(pre, d, post);
  }

  /** A minus sign and a numeral of value n with whitespace around them
      read as -n. */
  lemma {:induction false} ParseNegationOf(pre: string, d: string, post: string, n: nat)
    requires AllSpace(pre) && AllSpace(post) && Numeral(d) && DigitsValue(DigitsOf(d)) == n
    ensures ParseInt(pre + ("-" + d) + post) == Ok(-(n as int))
  {
    ParseNegative(pre, d, post);
  }

  /** A numeral with whitespace around it reads as its digits' value. */
  lemma ParseDigits(pre: string, d: string, post: string)
    requires AllSpace(pre) && AllSpace(post) && Numeral(d)
    ensures ParseInt(pre + d + post) == Ok(DigitsValue(DigitsOf(d)) as int)
  {
    StripAround(pre, d, post);
    ParseUnsigned(d);
  }

  /** A minus sign and a numeral with whitespace around them read as the
      negated value. */
  lemma ParseNegative(pre: string, d: string, post: string)
    requires AllSpace(pre) && AllSpace(post) && Numeral(d)
    ensures ParseInt(pre + ("-" + d) + post) == Ok(-(DigitsValue(DigitsOf(d)) as int))
  {
    StripAround(pre, "-" + d, post);
    ParseMinus(d);
  }

  /** A numeral without a sign reads as its digits' value. */
  lemma ParseUnsigned(d: string)
    requires Numeral(d)
    ensures ParseSigned(d) == Ok(DigitsValue(DigitsOf(d)))
  {
    assert d[0] != '-' && d[0] != '+';
  }

  /** A minus sign before a numeral reads as the negated value. */
  lemma ParseMinus(d: string)
    requires Numeral(d)
    ensures ParseSigned("-" + d) == Ok(-(DigitsValue(DigitsOf(d)) as int))
  {
    var t := "-" + d;
    assert t != [] && t[0] == '-' && t[1..] == d;
  }

  /** str() of a natural number is a numeral of the same value. */
  lemma NatNumeral(n: nat)
    ensures Numeral(NatToString(n)) && DigitsValue(DigitsOf(NatToString(n))) == n
  {
    var d := NatToString(n);
    NatDigits(n);
    DigitsOfDigits(d);
    assert Numeral(d);
  }

  lemma {:induction false} NatDigits(n: nat)
    ensures forall i :: 0 <= i < |NatToString(n)| ==> IsDigit(NatToString(n)[i])
    ensures DigitsValue(NatToString(n)) == n
    decreases n
  {
    var s := NatToString(n);
    if n >= 10 {
      NatDigits(n / 10);
      assert s[..|s| - 1] == NatToString(n / 10);
    }
  }

  /** A string of digits keeps all of them. */
  lemma {:induction false} DigitsOfDigits(s: string)
    requires forall i :: 0 <= i < |s| ==> IsDigit(s[i])
    ensures DigitsOf(s) == s
  {
    if s != [] {
      DigitsOfDigits(s[1..]);
      assert [s[0]] + s[1..] == s;
    }
  }

  /** int() accepts surrounding whitespace. */
  lemma ParseSpaced()
    ensures ParseInt(" 42") == Ok(42)
  {
    assert NatToString(42) == "42";
    assert " " + "42" + "" == " 42";
    ParseNat(42, " ", "");
  }

  /** int() accepts single underscores between digits. */
  lemma ParseGrouped()
    ensures ParseInt("4_2") == Ok(42)
  {
    var u := "4_2";
    assert Numeral(u);
    ParseDigits("", u, "");
    assert "" + u + "" == u;
    assert DigitsOf(u) == "42" by {
      assert u[1..] == "_2" && u[1..][1..] == "2";
      assert DigitsOf("2") == "2" by {
        assert "2"[1..] == [];
      }
    }
    assert DigitsValue("42") == 42 by {
      assert "42"[..1] == "4";
      assert "4"[..0] == [];
    }
  }

  /** int() rejects a doubled or a leading underscore. */
  lemma ParseBadGrouping()
    ensures ParseInt("4__2") == Err(ValueError)
    ensures ParseInt("_42") == Err(ValueError)
  {
    var w := "4__2";
    StripAround("", w, "");
    assert "" + w + "" == w;
    assert w[2] == '_' && w[1] == '_';
    var v := "_42";
    StripAround("", v, "");
    assert "" + v + "" == v;
    assert !IsDigit(v[0]);
  }
}
