/** base64_encode and base64_decode of stringtools.cpp, against section 4 of RFC 4648. */
module Base64 {
  import opened Bytes

  const PAD: Byte := 61 // '='
  /** What find returns for a character outside the alphabet, cut down to a byte. */
  const NOT_FOUND: Byte := 255

  /** The character of the base 64 alphabet with a number. */
  function Symbol(v: nat): (c: Byte)
    requires v < 64
    ensures c != PAD && c != 0
  {
    if v < 26 then 65 + v else if v < 52 then 97 + (v - 26) else if v < 62 then 48 + (v - 52)
    else if v == 62 then 43 else 47
  }

  predicate IsSymbol(c: Byte) { 65 <= c <= 90 || 97 <= c <= 122 || 48 <= c <= 57 || c == 43 || c == 47 }

  function Find(c: Byte): (v: Byte)
    ensures IsSymbol(c) ==> v < 64 && Symbol(v) == c
    ensures !IsSymbol(c) ==> v == NOT_FOUND
  {
    if 65 <= c <= 90 then c - 65 else if 97 <= c <= 122 then c - 97 + 26 else if 48 <= c <= 57 then c - 48 + 52
    else if c == 43 then 62 else if c == 47 then 63 else NOT_FOUND
  }

  lemma FindSymbol(v: nat)
    requires v < 64
    ensures IsSymbol(Symbol(v)) && Find(Symbol(v)) == v
  {
  }

  /** The order of table 1 of RFC 4648: A to Z, a to z, 0 to 9, + and /. */
  lemma SymbolOrder(v: nat)
    ensures v < 25 || 26 <= v < 51 || 52 <= v < 61 ==> Symbol(v + 1) == Symbol(v) + 1
    ensures Symbol(0) == 'A' as int && Symbol(26) == 'a' as int && Symbol(52) == '0' as int
    ensures Symbol(62) == '+' as int && Symbol(63) == '/' as int
  {
  }

  /** Three bytes as four numbers below 64. */
  function Quad(a: Byte, b: Byte, c: Byte): (q: seq<Byte>)
    ensures |q| == 4 && forall i | 0 <= i < 4 :: q[i] < 64
  {
    [a / 4, a % 4 * 16 + b / 16, b % 16 * 4 + c / 64, c % 64]
  }

  /** Four numbers back to three bytes; the sums are cut down to bytes. */
  function Triple(w: Byte, x: Byte, y: Byte, z: Byte): (t: seq<Byte>)
    ensures |t| == 3
  {
    [(w * 4 + x / 16 % 4) % 256, x % 16 * 16 + y / 4 % 16, (y % 4 * 64 + z) % 256]
  }

  function Symbols(q: seq<Byte>): (s: seq<Byte>)
    requires forall i | 0 <= i < |q| :: q[i] < 64
    ensures |s| == |q|
  {
    seq(|q|, i requires 0 <= i < |q| => Symbol(q[i]))
  }

  function Pads(n: nat): (s: seq<Byte>)
    ensures |s| == n
  {
    seq(n, i => PAD)
  }

  /** Whole groups of three bytes, then one or two bytes filled up with zeros and marked with '='. */
  function Encoded(s: seq<Byte>): seq<Byte>
    decreases |s|
  {
    if s == [] then []
    else if |s| >= 3 then Symbols(Quad(s[0], s[1], s[2])) + Encoded(s[3..])
    else LastGroup(s)
  }

  function LastGroup(s: seq<Byte>): seq<Byte>
    requires 1 <= |s| <= 2
  {
    Symbols(Quad(s[0], if |s| == 2 then s[1] else 0, 0)[..|s| + 1]) + Pads(3 - |s|)
  }

  /** The first group of "foobar", "fooba" and "foob", and the rest of each. */
  lemma FooStarts(rest: seq<Byte>)
    ensures Encoded([102, 111, 111] + rest) == [90, 109, 57, 118] + Encoded(rest)
  {
    hide Encoded;
    var s := [102, 111, 111] + rest;
    EncodedStep(s, 0);
    assert s[0..] == s && s[3..] == rest;
    assert Symbols(Quad(102, 111, 111)) == [90, 109, 57, 118];
  }

  /** Encodings of section 10 of RFC 4648, with each of the three endings: foobar, fooba and foob. */
  lemma KnownEncodings()
    ensures Encoded([102, 111, 111] + [98, 97, 114]) == [90, 109, 57, 118] + [89, 109, 70, 121]
    ensures Encoded([102, 111, 111] + [98, 97]) == [90, 109, 57, 118] + [89, 109, 69, 61]
    ensures Encoded([102, 111, 111] + [98]) == [90, 109, 57, 118] + [89, 103, 61, 61]
  {
    hide Encoded, LastGroup;
    FooStarts([98, 97, 114]);
    FooStarts([98, 97]);
    FooStarts([98]);
    BarEncoded();
    EncodedEnd([98, 97]);
    EncodedEnd([98]);
    LastGroups();
  }

  lemma BarEncoded()
    ensures Encoded([98, 97, 114]) == [89, 109, 70, 121]
  {
    hide Encoded;
    var bar: seq<Byte> := [98, 97, 114];
    EncodedStep(bar, 0);
    EncodedEnd([]);
    assert bar[0..] == bar && bar[3..] == [];
    assert Symbols(Quad(98, 97, 114)) == [89, 109, 70, 121];
  }

  lemma LastGroups()
    ensures LastGroup([98, 97]) == [89, 109, 69, 61] && LastGroup([98]) == [89, 103, 61, 61]
  {
    hide LastGroup;
    LastTwo(98, 97);
    LastOne(98);
  }

  lemma LastTwo(a: Byte, b: Byte)
    ensures LastGroup([a, b]) == [Symbol(a / 4), Symbol(a % 4 * 16 + b / 16), Symbol(b % 16 * 4), PAD]
  {
    hide Symbol;
    assert Quad(a, b, 0)[..3] == [a / 4, a % 4 * 16 + b / 16, b % 16 * 4];
  }

  lemma LastOne(a: Byte)
    ensures LastGroup([a]) == [Symbol(a / 4), Symbol(a % 4 * 16), PAD, PAD]
  {
    hide Symbol;
    assert Quad(a, 0, 0)[..2] == [a / 4, a % 4 * 16];
  }

  /** How many of the first four characters come before '=', before any other foreign character, and before the end. */
  function Leading(e: seq<Byte>): (n: nat)
    ensures n <= 4 && n <= |e| && (forall i | 0 <= i < n :: IsSymbol(e[i])) && (n < 4 && n < |e| ==> !IsSymbol(e[n]))
  {
    if |e| == 0 || !IsSymbol(e[0]) then 0
    else if |e| == 1 || !IsSymbol(e[1]) then 1
    else if |e| == 2 || !IsSymbol(e[2]) then 2
    else if |e| == 3 || !IsSymbol(e[3]) then 3
    else 4
  }

  function Decoded(e: seq<Byte>): seq<Byte>
    decreases |e|
  {
    var n := Leading(e);
    if n == 4 then Group(e[..4]) + Decoded(e[4..])
    else if n == 0 then []
    else Group(Filled(e[..n]))[..n - 1]
  }

  /** The unused places of the last group hold NUL, which is not in the alphabet. */
  function Filled(g: seq<Byte>): (r: seq<Byte>)
    requires |g| <= 4
    ensures |r| == 4
  {
    g + seq(4 - |g|, i => 0)
  }

  function Group(g: seq<Byte>): (t: seq<Byte>)
    requires |g| == 4
    ensures |t| == 3
  {
    Triple(Find(g[0]), Find(g[1]), Find(g[2]), Find(g[3]))
  }

  /** Decoding ends at the first character that is not in the alphabet. */
  lemma {:induction false} DecodedStops(e: seq<Byte>, c: Byte, rest: seq<Byte>)
    requires !IsSymbol(c)
    ensures Decoded(e + [c] + rest) == Decoded(e)
    decreases |e|
  {
    hide Group, Filled, IsSymbol;
    var s, n := e + [c] + rest, Leading(e);
    assert s[..|e|] == e && s[|e|] == c;
    if n == 4 {
      assert s[..4] == e[..4] && s[4..] == e[4..] + [c] + rest;
      DecodedStops(e[4..], c, rest);
    } else {
      assert Leading(s) == n && s[..n] == e[..n];
    }
  }

  // ---------------------------------------------------------------------------------------

  lemma QuadTriple(a: Byte, b: Byte, c: Byte)
    ensures var q := Quad(a, b, c); Triple(q[0], q[1], q[2], q[3]) == [a, b, c]
  {
    Unpack(a % 4, b / 16, 16);
    Unpack(b % 16, c / 64, 4);
  }

  /** The first bytes of a group do not depend on the numbers that were left out. */
  lemma TriplePrefix(w: Byte, x: Byte, y: Byte, z: Byte, u: Byte, v: Byte)
    ensures Triple(w, x, y, z)[..2] == Triple(w, x, y, v)[..2]
    ensures Triple(w, x, y, z)[..1] == Triple(w, x, u, v)[..1]
  {
  }

  /** Decoding undoes encoding, for every byte string. */
  lemma {:induction false} RoundTrip(s: seq<Byte>)
    ensures Decoded(Encoded(s)) == s
    decreases |s|
  {
    if |s| >= 3 {
      hide Symbol, Find, Quad, Triple, IsSymbol;
      var q := Quad(s[0], s[1], s[2]);
      var e := Encoded(s);
      forall i | 0 <= i < 4 ensures e[i] == Symbol(q[i]) && Find(e[i]) == q[i] && IsSymbol(e[i]) { FindSymbol(q[i]); }
      QuadTriple(s[0], s[1], s[2]);
      assert Leading(e) == 4 && Group(e[..4]) == [s[0], s[1], s[2]];
      assert e[4..] == Encoded(s[3..]);
      RoundTrip(s[3..]);
    } else if s != [] {
      LastRoundTrip(s);
    }
  }

  lemma LastRoundTrip(s: seq<Byte>)
    requires 1 <= |s| <= 2
    ensures Decoded(LastGroup(s)) == s
  {
    var q, e := Quad(s[0], if |s| == 2 then s[1] else 0, 0), LastGroup(s);
    var n := |s| + 1;
    forall i | 0 <= i < n ensures e[i] == Symbol(q[i]) && Find(e[i]) == q[i] && IsSymbol(e[i]) { FindSymbol(q[i]); }
    assert e[n] == PAD;
    assert Leading(e) == n;
    var g := Filled(e[..n]);
    assert g[0] == e[0] && g[1] == e[1] && (n == 3 ==> g[2] == e[2]);
    hide Symbol, Find, Quad, Triple, IsSymbol;
    QuadTriple(s[0], if |s| == 2 then s[1] else 0, 0);
    TriplePrefix(q[0], q[1], q[2], Find(g[3]), q[2], q[3]);
    TriplePrefix(q[0], q[1], Find(g[2]), Find(g[3]), q[2], q[3]);
  }

  /** A base64 text is made of symbols, followed by at most two '=', and its length is the next multiple of four. */
  lemma {:induction false} EncodedLength(s: seq<Byte>)
    ensures |Encoded(s)| == (|s| + 2) / 3 * 4
    decreases |s|
  {
    if |s| >= 3 { EncodedLength(s[3..]); }
  }

  // ---------------------------------------------------------------------------------------
  // The programs

  method AppendSymbols(text: seq<Byte>, numbers: seq<Byte>) returns (r: seq<Byte>)
    requires forall i | 0 <= i < |numbers| :: numbers[i] < 64
    ensures r == text + Symbols(numbers)
  {
    r := text;
    for i := 0 to |numbers|
      invariant r == text + Symbols(numbers)[..i]
    {
      r := r + [Symbol(numbers[i])];
    }
  }

  lemma EncodedStep(s: seq<Byte>, n: nat)
    requires n + 3 <= |s|
    ensures Encoded(s[n..]) == Symbols(Quad(s[n], s[n + 1], s[n + 2])) + Encoded(s[n + 3..])
  {
    assert s[n..][3..] == s[n + 3..];
  }

  /** The last one or two bytes. */
  method EncodeLast(text: seq<Byte>, three: array<Byte>, left: nat) returns (r: seq<Byte>)
    requires three.Length == 3 && 1 <= left <= 2
    modifies three
    ensures r == text + LastGroup(old(three[..left]))
  {
    hide Quad, Symbols, Symbol;
    ghost var last := three[..left];
    assert last[0] == three[0] && (left == 2 ==> last[1] == three[1]);
    var j := left;
    while j < 3
      invariant left <= j <= 3 && three[0] == last[0] && (left == 2 ==> three[1] == last[1])
      invariant forall k | left <= k < j :: three[k] == 0
    {
      three[j] := 0;
      j := j + 1;
    }
    r := AppendSymbols(text, Quad(three[0], three[1], three[2])[..left + 1]);
    var i := left;
    while i < 3
      invariant left <= i <= 3
      invariant r + Pads(3 - i) == text + LastGroup(last)
    {
      r := r + [PAD];
      i := i + 1;
    }
  }

  lemma Regroup(a: seq<Byte>, b: seq<Byte>, c: seq<Byte>)
    ensures a + (b + c) == a + b + c
  {
  }

  method AppendGroup(text: seq<Byte>, a: Byte, b: Byte, c: Byte) returns (r: seq<Byte>)
    ensures r == text + Symbols(Quad(a, b, c))
  {
    r := AppendSymbols(text, Quad(a, b, c));
  }

  method Base64Encode(s: seq<Byte>) returns (text: seq<Byte>)
    ensures text == Encoded(s)
  {
    hide Quad, Symbols, Symbol, Encoded, LastGroup;
    text := [];
    var three := new Byte[3](_ => 0);
    var i, n := 0, 0;
    assert s[0..] == s;
    while n < |s|
      invariant i <= n <= |s| && i < 3 && forall k | 0 <= k < i :: three[k] == s[n - i + k]
      invariant text + Encoded(s[n - i..]) == Encoded(s)
    {
      three[i] := s[n];
      i, n := i + 1, n + 1;
      if i == 3 {
        EncodedStep(s, n - 3);
        Regroup(text, Symbols(Quad(s[n - 3], s[n - 2], s[n - 1])), Encoded(s[n..]));
        text := AppendGroup(text, three[0], three[1], three[2]);
        i := 0;
      }
    }
    assert three[..i] == s[n - i..];
    text := EncodeRest(text, three, i);
  }

  method EncodeRest(text: seq<Byte>, three: array<Byte>, left: nat) returns (r: seq<Byte>)
    requires three.Length == 3 && left < 3
    modifies three
    ensures r == text + Encoded(old(three[..left]))
  {
    hide Encoded, LastGroup;
    EncodedEnd(three[..left]);
    r := text;
    if left > 0 { r := EncodeLast(text, three, left); }
  }

  lemma EncodedEnd(s: seq<Byte>)
    requires |s| < 3
    ensures Encoded(s) == if s == [] then [] else LastGroup(s)
  {
  }

  /** The input is shorter than 2^31, as its length is kept in an int. */
  method Base64Decode(e: seq<Byte>) returns (data: seq<Byte>)
    requires |e| < TWO_31
    ensures data == Decoded(e)
  {
    hide Group, Decoded, Leading, IsSymbol;
    data := [];
    var four := new Byte[4](_ => 0);
    var i, n := 0, 0;
    assert e[0..] == e;
    while n < |e| && e[n] != PAD && IsSymbol(e[n])
      invariant i <= n <= |e| && i < 4
      invariant forall k | 0 <= k < i :: four[k] == e[n - i + k] && IsSymbol(four[k])
      invariant data + Decoded(e[n - i..]) == Decoded(e)
      decreases |e| - n
    {
      four[i] := e[n];
      i, n := i + 1, n + 1;
      if i == 4 {
        assert four[..] == e[n - 4..n];
        DecodedStep(e, n - 4, four[..]);
        Regroup(data, Group(four[..]), Decoded(e[n..]));
        data := data + Group(four[..]);
        i := 0;
      }
    }
    assert four[..i] <= e[n - i..];
    DecodedEnd(e[n - i..], four[..i]);
    if i > 0 {
      data := DecodeLast(data, four, i);
    }
  }

  /** The last incomplete group. */
  method DecodeLast(data: seq<Byte>, four: array<Byte>, n: nat) returns (r: seq<Byte>)
    requires four.Length == 4 && 1 <= n <= 3
    modifies four
    ensures r == data + Group(Filled(old(four[..n])))[..n - 1]
  {
    hide Group;
    ghost var last := four[..n];
    var j := n;
    while j < 4
      invariant n <= j <= 4 && four[..n] == last && forall k | n <= k < j :: four[k] == 0
    {
      four[j] := 0;
      j := j + 1;
    }
    assert four[..] == Filled(last);
    var three := Group(four[..]);
    r := data;
    for k := 0 to n - 1
      invariant r == data + three[..k]
    {
      r := r + [three[k]];
    }
  }

  lemma DecodedStep(e: seq<Byte>, n: nat, g: seq<Byte>)
    requires n + 4 <= |e| && g == e[n..n + 4] && forall k | 0 <= k < 4 :: IsSymbol(g[k])
    ensures Decoded(e[n..]) == Group(g) + Decoded(e[n + 4..])
  {
    assert e[n..][4..] == e[n + 4..] && e[n..][..4] == g;
    assert forall k | 0 <= k < 4 :: e[n..][k] == g[k];
  }

  lemma DecodedEnd(rest: seq<Byte>, g: seq<Byte>)
    requires |g| < 4 && g <= rest && (forall k | 0 <= k < |g| :: IsSymbol(g[k]))
    requires |g| < |rest| ==> rest[|g|] == PAD || !IsSymbol(rest[|g|])
    ensures Decoded(rest) == if g == [] then [] else Group(Filled(g))[..|g| - 1]
  {
    assert forall k | 0 <= k < |g| :: rest[k] == g[k];
    assert Leading(rest) == |g|;
    assert rest[..|g|] == g;
  }
}
