/** Base64 (section 4 of RFC 4648) as the web server does it: encoded byte by byte, with the unfinished six bits kept
    in the output buffer itself. */
module Base64 {
  import opened Arithmetic

  type Octet = bv8
  type Octets = seq<Octet>

  const PAD: Octet := 61
  const INVALID: Octet := 255

  /** mg_b64idx */
  function Idx(c: Octet): Octet {
    if c < 26 then c + 65
    else if c < 52 then c - 26 + 97
    else if c < 62 then c - 52 + 48
    else if c == 62 then 43 else 47
  }

  /** mg_b64rev; INVALID stands for -1. */
  function Rev(c: Octet): Octet {
    if 65 <= c <= 90 then c - 65
    else if 97 <= c <= 122 then c + 26 - 97
    else if 48 <= c <= 57 then c + 52 - 48
    else if c == 43 then 62
    else if c == 47 then 63
    else if c == PAD then 64
    else INVALID
  }

  function First(a: Octet): Octet { a >> 2 }

  function Second(a: Octet, b: Octet): Octet { ((a & 3) << 4) | (b >> 4) }

  function Third(b: Octet, c: Octet): Octet { ((b & 15) << 2) | (c >> 6) }

  function Fourth(c: Octet): Octet { c & 63 }

  /** The text of RFC 4648, three bytes at a time. */
  function Encoded(p: Octets): Octets {
    if p == [] then []
    else if |p| == 1 then [Idx(First(p[0])), Idx(Second(p[0], 0)), PAD, PAD]
    else if |p| == 2 then [Idx(First(p[0])), Idx(Second(p[0], p[1])), Idx(Third(p[1], 0)), PAD]
    else Group(p[0], p[1], p[2]) + Encoded(p[3..])
  }

  function Group(a: Octet, b: Octet, c: Octet): Octets {
    [Idx(First(a)), Idx(Second(a, b)), Idx(Third(b, c)), Idx(Fourth(c))]
  }

  datatype Decoding = Refused | Bytes(bytes: Octets)

  function Byte0(a: Octet, b: Octet): Octet { (a << 2) | (b >> 4) }

  function Byte1(b: Octet, c: Octet): Octet { (b << 4) | (c >> 2) }

  function Byte2(c: Octet, d: Octet): Octet { (c << 6) | d }

  /** The bytes of one group of four characters. */
  function DecodeGroup(s0: Octet, s1: Octet, s2: Octet, s3: Octet): Decoding {
    var a, b, c, d := Rev(s0), Rev(s1), Rev(s2), Rev(s3);
    if a == 64 || a == INVALID || b == 64 || b == INVALID || c == INVALID || d == INVALID then Refused
    else if s2 == PAD then Bytes([Byte0(a, b)])
    else if s3 == PAD then Bytes([Byte0(a, b), Byte1(b, c)])
    else Bytes([Byte0(a, b), Byte1(b, c), Byte2(c, d)])
  }

  /** The decoder; characters after the last whole group of four are ignored. */
  function Decoded(s: Octets): Decoding {
    if |s| < 4 then Bytes([])
    else
      var head, tail := DecodeGroup(s[0], s[1], s[2], s[3]), Decoded(s[4..]);
      if head.Refused? || tail.Refused? then Refused else Bytes(head.bytes + tail.bytes)
  }

  // ---------- Round trip ----------

  lemma IdxRoundTrip(c: Octet)
    requires c < 64
    ensures Rev(Idx(c)) == c && Idx(c) != PAD && c != 64 && c != INVALID
  {
  }

  function CharactersFrom(first: char, n: nat): (s: string)
    requires first as int + n <= 128
    ensures |s| == n
  {
    seq(n, i requires 0 <= i < n => (first as int + i) as char)
  }

  /** Table 1 of RFC 4648: upper case, lower case, digits, plus and slash. */
  function Alphabet(): (s: string)
    ensures |s| == 64
  {
    CharactersFrom('A', 26) + CharactersFrom('a', 26) + CharactersFrom('0', 10) + "+/"
  }

  lemma AlphabetPlace(i: nat)
    requires i < 64
    ensures Alphabet()[i] as int ==
            if i < 26 then i + 65 else if i < 52 then i - 26 + 97 else if i < 62 then i - 52 + 48
            else if i == 62 then 43 else 47
  {
  }

  /** Six bits are written as the character at their place in the alphabet. */
  lemma AlphabetIsUsed(c: Octet)
    requires c < 64
    ensures Idx(c) as int == Alphabet()[c as int] as int
  {
    AlphabetPlace(c as int);
  }

  lemma PadReads()
    ensures Rev(PAD) == 64 && INVALID != 64
  {
  }

  lemma SixBits(a: Octet, b: Octet)
    ensures First(a) < 64 && Second(a, b) < 64 && Third(a, b) < 64 && Fourth(a) < 64
  {
  }

  lemma Reassemble(a: Octet, b: Octet, c: Octet)
    ensures Byte0(First(a), Second(a, b)) == a
    ensures Byte1(Second(a, b), Third(b, c)) == b
    ensures Byte2(Third(b, c), Fourth(c)) == c
  {
  }

  /** The four six-bit values of a group are those of its three bytes read as one number, high bits first. */
  lemma GroupIsOneNumber(a: Octet, b: Octet, c: Octet)
    ensures (First(a) as bv24 << 18) | (Second(a, b) as bv24 << 12) | (Third(b, c) as bv24 << 6) | Fourth(c) as bv24
            == (a as bv24 << 16) | (b as bv24 << 8) | c as bv24
    ensures First(a) < 64 && Second(a, b) < 64 && Third(b, c) < 64 && Fourth(c) < 64
  {
  }

  lemma GroupOfThree(a: Octet, b: Octet, c: Octet)
    ensures DecodeGroup(Idx(First(a)), Idx(Second(a, b)), Idx(Third(b, c)), Idx(Fourth(c))) == Bytes([a, b, c])
  {
    hide Idx, Rev, First, Second, Third, Fourth, Byte0, Byte1, Byte2;
    SixBits(a, b);
    SixBits(b, c);
    SixBits(c, 0);
    IdxRoundTrip(First(a));
    IdxRoundTrip(Second(a, b));
    IdxRoundTrip(Third(b, c));
    IdxRoundTrip(Fourth(c));
    Reassemble(a, b, c);
  }

  lemma GroupOfTwo(a: Octet, b: Octet)
    ensures DecodeGroup(Idx(First(a)), Idx(Second(a, b)), Idx(Third(b, 0)), PAD) == Bytes([a, b])
  {
    hide Idx, Rev, First, Second, Third, Fourth, Byte0, Byte1, Byte2;
    PadReads();
    SixBits(a, b);
    SixBits(b, 0);
    IdxRoundTrip(First(a));
    IdxRoundTrip(Second(a, b));
    IdxRoundTrip(Third(b, 0));
    Reassemble(a, b, 0);
  }

  lemma GroupOfOne(a: Octet)
    ensures DecodeGroup(Idx(First(a)), Idx(Second(a, 0)), PAD, PAD) == Bytes([a])
  {
    hide Idx, Rev, First, Second, Third, Fourth, Byte0, Byte1, Byte2;
    PadReads();
    SixBits(a, 0);
    IdxRoundTrip(First(a));
    IdxRoundTrip(Second(a, 0));
    Reassemble(a, 0, 0);
  }

  /** Decoding the encoded text gives back the bytes. */
  lemma {:induction false} RoundTrip(p: Octets)
    ensures Decoded(Encoded(p)) == Bytes(p)
    decreases |p|
  {
    hide Idx, Rev, First, Second, Third, Fourth, DecodeGroup;
    if |p| == 1 {
      GroupOfOne(p[0]);
      DecodesOne(Encoded(p), [], [p[0]]);
    } else if |p| == 2 {
      GroupOfTwo(p[0], p[1]);
      DecodesOne(Encoded(p), [], [p[0], p[1]]);
    } else if |p| >= 3 {
      RoundTrip(p[3..]);
      GroupOfThree(p[0], p[1], p[2]);
      EncodedStarts(p);
      hide Encoded, Decoded, Group;
      DecodesOne(Encoded(p), p[3..], [p[0], p[1], p[2]]);
      assert [p[0], p[1], p[2]] + p[3..] == p;
    }
  }

  lemma EncodedStarts(p: Octets)
    requires |p| >= 3
    ensures |Encoded(p)| >= 4 && Encoded(p)[4..] == Encoded(p[3..])
    ensures Encoded(p)[0] == Idx(First(p[0])) && Encoded(p)[1] == Idx(Second(p[0], p[1]))
    ensures Encoded(p)[2] == Idx(Third(p[1], p[2])) && Encoded(p)[3] == Idx(Fourth(p[2]))
  {
    hide Idx, First, Second, Third, Fourth;
  }

  lemma DecodesOne(text: Octets, rest: Octets, bytes: Octets)
    requires |text| >= 4 && DecodeGroup(text[0], text[1], text[2], text[3]) == Bytes(bytes)
    requires Decoded(text[4..]) == Bytes(rest)
    ensures Decoded(text) == Bytes(bytes + rest)
  {
    hide DecodeGroup;
  }

  lemma {:induction false} TextLength(p: Octets)
    ensures |Encoded(p)| == 4 * ((|p| + 2) / 3)
    decreases |p|
  {
    hide Idx, First, Second, Third, Fourth;
    if |p| >= 3 {
      TextLength(p[3..]);
    }
  }

  /** How many padding characters a text of `n` bytes ends with. */
  function Padding(n: nat): nat { (3 - n % 3) % 3 }

  lemma NoPadInGroup(a: Octet, b: Octet, c: Octet)
    ensures Idx(First(a)) != PAD && Idx(Second(a, b)) != PAD && Idx(Third(b, c)) != PAD && Idx(Fourth(c)) != PAD
  {
    hide Idx, Rev, First, Second, Third, Fourth;
    SixBits(a, b);
    SixBits(b, c);
    SixBits(c, 0);
    IdxRoundTrip(First(a));
    IdxRoundTrip(Second(a, b));
    IdxRoundTrip(Third(b, c));
    IdxRoundTrip(Fourth(c));
  }

  /** Four characters for every three bytes begun, padded at the end only. */
  lemma {:induction false} TextShape(p: Octets)
    ensures |Encoded(p)| == 4 * ((|p| + 2) / 3)
    ensures forall i | 0 <= i < |Encoded(p)| :: Encoded(p)[i] == PAD <==> i >= |Encoded(p)| - Padding(|p|)
    decreases |p|
  {
    hide Idx, Rev, First, Second, Third, Fourth;
    TextLength(p);
    if |p| == 1 {
      NoPadInGroup(p[0], 0, 0);
    } else if |p| == 2 {
      NoPadInGroup(p[0], p[1], 0);
    } else if |p| >= 3 {
      var rest := p[3..];
      TextShape(rest);
      PaddingRepeats(|rest|);
      assert PAD !in Group(p[0], p[1], p[2]) by {
        NoPadInGroup(p[0], p[1], p[2]);
      }
      hide Group, Encoded, Padding;
      ShapeExtends(Group(p[0], p[1], p[2]), Encoded(rest), Padding(|p|));
    }
  }

  lemma PaddingRepeats(n: nat)
    ensures Padding(n + 3) == Padding(n) && Padding(n) <= 4 * ((n + 2) / 3)
  {
  }

  lemma ShapeExtends(g: Octets, rest: Octets, padding: nat)
    requires padding <= |rest| && PAD !in g
    requires forall i | 0 <= i < |rest| :: rest[i] == PAD <==> i >= |rest| - padding
    ensures forall i | 0 <= i < |g + rest| :: (g + rest)[i] == PAD <==> i >= |g + rest| - padding
  {
  }

  // ---------- Which texts are decoded, and to what ----------

  predicate InAlphabet(c: Octet) {
    exists i :: 0 <= i < 64 && Alphabet()[i] as int == c as int
  }

  lemma PlaceOf(c: Octet)
    ensures Rev(c) < 64 ==> Idx(Rev(c)) == c
    ensures Rev(c) < 64 || Rev(c) == 64 || Rev(c) == INVALID
    ensures Rev(c) == 64 <==> c == PAD
  {
  }

  /** Reading a character gives its place in the alphabet; only the padding character and those outside have none. */
  lemma RevIsPlace(c: Octet)
    ensures Rev(c) < 64 <==> InAlphabet(c)
    ensures InAlphabet(c) ==> Alphabet()[Rev(c) as int] as int == c as int
    ensures Rev(c) == 64 <==> c == PAD
    ensures Rev(c) == INVALID <==> !InAlphabet(c) && c != PAD
  {
    hide Idx, Rev, Alphabet;
    PlaceOf(c);
    if Rev(c) < 64 {
      AlphabetIsUsed(Rev(c));
    }
    if InAlphabet(c) {
      var i :| 0 <= i < 64 && Alphabet()[i] as int == c as int;
      PlaceIsRead(i, c);
    }
  }

  lemma PlaceIsRead(i: nat, c: Octet)
    requires i < 64 && Alphabet()[i] as int == c as int
    ensures Rev(c) < 64
  {
    hide Alphabet;
    AlphabetPlace(i);
  }

  /** Two characters of the alphabet, then two of the alphabet or padding. */
  predicate GoodGroup(s: Octets, k: nat)
    requires 4 * k + 3 < |s|
  {
    && InAlphabet(s[4 * k]) && InAlphabet(s[4 * k + 1])
    && (InAlphabet(s[4 * k + 2]) || s[4 * k + 2] == PAD)
    && (InAlphabet(s[4 * k + 3]) || s[4 * k + 3] == PAD)
  }

  lemma GroupRefusedIff(s0: Octet, s1: Octet, s2: Octet, s3: Octet)
    ensures DecodeGroup(s0, s1, s2, s3).Refused? <==> !GoodGroup([s0, s1, s2, s3], 0)
  {
    hide Rev, InAlphabet, DecodeGroup;
    GroupBytes(s0, s1, s2, s3);
    RevIsPlace(s0);
    RevIsPlace(s1);
    RevIsPlace(s2);
    RevIsPlace(s3);
    var s := [s0, s1, s2, s3];
    assert s[4 * 0] == s0 && s[4 * 0 + 1] == s1 && s[4 * 0 + 2] == s2 && s[4 * 0 + 3] == s3;
    OnlyInvalid();
  }

  lemma OnlyInvalid()
    ensures INVALID != 64 && !(INVALID < 64) && PAD == 61
  {
  }

  /** A text is refused exactly when one of its whole groups is not good. */
  lemma {:induction false} RefusedIff(s: Octets)
    ensures Decoded(s).Refused? <==> exists k: nat :: 4 * k + 3 < |s| && !GoodGroup(s, k)
    decreases |s|
  {
    hide DecodeGroup, InAlphabet, GoodGroup;
    if |s| >= 4 {
      GroupRefusedIff(s[0], s[1], s[2], s[3]);
      FirstGroup(s);
      RefusedIff(s[4..]);
      if k: nat :| 4 * k + 3 < |s| && !GoodGroup(s, k) {
        if k > 0 {
          LaterGroup(s, k - 1);
        }
      }
      if j: nat :| 4 * j + 3 < |s[4..]| && !GoodGroup(s[4..], j) {
        LaterGroup(s, j);
      }
    }
  }

  lemma FirstGroup(s: Octets)
    requires |s| >= 4
    ensures GoodGroup([s[0], s[1], s[2], s[3]], 0) <==> GoodGroup(s, 0)
  {
    hide InAlphabet;
  }

  lemma LaterGroup(s: Octets, k: nat)
    requires 4 * (k + 1) + 3 < |s|
    ensures GoodGroup(s, k + 1) <==> GoodGroup(s[4..], k)
  {
    hide InAlphabet;
    var t := s[4..];
    assert t[4 * k] == s[4 * (k + 1)] && t[4 * k + 1] == s[4 * (k + 1) + 1];
    assert t[4 * k + 2] == s[4 * (k + 1) + 2] && t[4 * k + 3] == s[4 * (k + 1) + 3];
  }

  /** The three bytes of a group are its four six-bit values read as one number, high bits first. */
  lemma BytesAreOneNumber(a: Octet, b: Octet, c: Octet, d: Octet)
    requires a < 64 && b < 64 && c < 64 && d < 64
    ensures (Byte0(a, b) as bv24 << 16) | (Byte1(b, c) as bv24 << 8) | Byte2(c, d) as bv24
            == (a as bv24 << 18) | (b as bv24 << 12) | (c as bv24 << 6) | d as bv24
  {
  }

  // ---------- The incremental encoder ----------

  function Waiting1(a: Octet): Octet { (a & 3) << 4 }

  function Waiting2(b: Octet): Octet { (b & 15) << 2 }

  /** What the encoder has in its buffer for a group begun: finished characters, then the raw bits that wait for the
      next byte. */
  function Begun(q: Octets): Octets
    requires |q| < 3
  {
    if q == [] then []
    else if |q| == 1 then [Idx(First(q[0])), Waiting1(q[0])]
    else [Idx(First(q[0])), Idx(Second(q[0], q[1])), Waiting2(q[1])]
  }

  /** The bytes of the whole groups, and those of the group begun. */
  function Whole(p: Octets): (w: Octets)
    ensures |w| == WholeLength(|p|)
  {
    p[..WholeLength(|p|)]
  }

  function Rest(p: Octets): (r: Octets)
    ensures |r| == |p| % 3
  {
    p[WholeLength(|p|)..]
  }

  function WholeLength(n: nat): (w: nat)
    ensures w <= n && w % 3 == 0 && n - w == n % 3
  {
    n - n % 3
  }

  /** What the encoder has in its buffer after the bytes `p`. */
  function InBuffer(p: Octets): Octets { Encoded(Whole(p)) + Begun(Rest(p)) }

  /** The length that the encoder returns: it does not count the waiting bits. */
  function LengthAfter(p: Octets): nat { 4 * (|p| / 3) + |p| % 3 }

  lemma {:induction false} EncodedSplits(p: Octets, q: Octets)
    requires |p| % 3 == 0
    ensures Encoded(p + q) == Encoded(p) + Encoded(q)
    decreases |p|
  {
    hide Idx, First, Second, Third, Fourth, Group;
    if p == [] {
      assert p + q == q;
    } else {
      assert (p + q)[3..] == p[3..] + q;
      EncodedSplits(p[3..], q);
    }
  }

  lemma WholeAndRest(p: Octets)
    ensures p == Whole(p) + Rest(p)
    ensures Encoded(p) == Encoded(Whole(p)) + Encoded(Rest(p))
    ensures |Encoded(Whole(p))| == 4 * (|p| / 3)
    ensures |InBuffer(p)| == LengthAfter(p) + (if |p| % 3 == 0 then 0 else 1)
  {
    hide Encoded, Begun, WholeLength;
    assert p == Whole(p) + Rest(p);
    EncodedSplits(Whole(p), Rest(p));
    TextLength(Whole(p));
    GroupsOf(|p|);
    BegunLength(Rest(p));
  }

  lemma GroupsOf(n: nat)
    ensures (WholeLength(n) + 2) / 3 == n / 3
  {
    var k, r := n / 3, n % 3;
    assert WholeLength(n) == 3 * k;
  }

  lemma BegunLength(q: Octets)
    requires |q| < 3
    ensures |Begun(q)| == |q| + (if |q| == 0 then 0 else 1)
  {
  }

  function Join1(waiting: Octet, ch: Octet): Octet { waiting | (ch >> 4) }

  function Join2(waiting: Octet, ch: Octet): Octet { waiting | (ch >> 6) }

  /** The waiting bits joined with the top of the next byte are the next six bits. */
  lemma BitsJoin(a: Octet, b: Octet)
    ensures Join1(Waiting1(a), b) == Second(a, b)
    ensures Join2(Waiting2(a), b) == Third(a, b)
  {
  }

  /** What one more byte makes of the group begun: its last entry is replaced. */
  function Joined(q: Octets, ch: Octet): (r: Octets)
    requires |q| < 3
    ensures |r| == |q| + 2
  {
    if q == [] then [Idx(First(ch)), Waiting1(ch)]
    else if |q| == 1 then [Begun(q)[0], Idx(Join1(Begun(q)[1], ch)), Waiting2(ch)]
    else [Begun(q)[0], Begun(q)[1], Idx(Join2(Begun(q)[2], ch)), Idx(Fourth(ch))]
  }

  lemma JoinedIsNext(q: Octets, ch: Octet)
    requires |q| < 3
    ensures Joined(q, ch) == if |q| == 2 then Group(q[0], q[1], ch) else Begun(q + [ch])
  {
    hide Idx, First, Second, Third, Fourth, Waiting1, Waiting2, Join1, Join2;
    if |q| > 0 {
      BitsJoin(q[|q| - 1], ch);
    }
  }

  /** How one more byte changes the buffer. */
  lemma OneMoreByte(p: Octets, ch: Octet)
    ensures InBuffer(p + [ch]) == Encoded(Whole(p)) + Joined(Rest(p), ch)
    ensures LengthAfter(p + [ch]) == LengthAfter(p) + (if |p| % 3 == 2 then 2 else 1)
  {
    hide Idx, First, Second, Third, Fourth, Group, Waiting1, Waiting2, Encoded, Begun, Joined;
    var q := p + [ch];
    JoinedIsNext(Rest(p), ch);
    if |p| % 3 == 2 {
      var a, b := Rest(p)[0], Rest(p)[1];
      assert Whole(q) == Whole(p) + [a, b, ch];
      EncodedSplits(Whole(p), [a, b, ch]);
      OneGroup(a, b, ch);
      NothingBegun();
      assert Rest(q) == [];
      assert InBuffer(q) == Encoded(Whole(q));
    } else {
      assert Whole(q) == Whole(p) && Rest(q) == Rest(p) + [ch];
    }
  }

  lemma OneGroup(a: Octet, b: Octet, c: Octet)
    ensures Encoded([a, b, c]) == Group(a, b, c)
  {
    hide Idx, First, Second, Third, Fourth, Group;
    assert [a, b, c][3..] == [];
    assert Encoded([a, b, c]) == Group(a, b, c) + Encoded([]);
  }

  lemma NothingBegun()
    ensures Begun([]) == []
  {
  }

  /** mg_base64_update: `p` are the bytes encoded so far. */
  method Update(ch: Octet, to: array<Octet>, len: nat, ghost p: Octets) returns (newLen: nat)
    requires len == LengthAfter(p) && len + 2 <= to.Length && |InBuffer(p)| <= to.Length
    requires to[..|InBuffer(p)|] == InBuffer(p)
    modifies to
    ensures newLen == LengthAfter(p + [ch]) && |InBuffer(p + [ch])| <= to.Length
    ensures to[..|InBuffer(p + [ch])|] == InBuffer(p + [ch])
  {
    hide Idx, First, Fourth, Waiting1, Waiting2, Join1, Join2, Encoded, Begun, Whole, Rest, InBuffer, LengthAfter;
    ghost var text, q := Encoded(Whole(p)), Rest(p);
    ghost var begun := Begun(q);
    Entering(p, ch);
    assert forall i | 0 <= i < |begun| :: to[|text| + i] == begun[i] by {
      assert forall i | 0 <= i < |text + begun| :: to[i] == to[..|text + begun|][i];
    }
    assert to[..|text|] == text by {
      assert to[..|text + begun|][..|text|] == (text + begun)[..|text|];
    }
    var n, rem := len, (len % 4) % 3;
    if rem == 0 {
      to[n] := Idx(First(ch));
      n := n + 1;
      to[n] := Waiting1(ch);
    } else if rem == 1 {
      to[n] := Idx(Join1(to[n], ch));
      n := n + 1;
      to[n] := Waiting2(ch);
    } else {
      to[n] := Idx(Join2(to[n], ch));
      n := n + 1;
      to[n] := Idx(Fourth(ch));
      n := n + 1;
    }
    newLen := n;
    TextThenGroup(to[..], text, Joined(q, ch));
  }

  /** Where the encoder stands before one more byte, and what it will have to reach. */
  lemma Entering(p: Octets, ch: Octet)
    ensures var text, q := Encoded(Whole(p)), Rest(p);
            && InBuffer(p) == text + Begun(q) && InBuffer(p + [ch]) == text + Joined(q, ch)
            && LengthAfter(p) == |text| + |q| && LengthAfter(p + [ch]) == |text| + |q| + (if |q| == 2 then 2 else 1)
            && LengthAfter(p) % 4 % 3 == |q| && |q| < 3
            && |Begun(q)| == (if |q| == 0 then 0 else |q| + 1)
  {
    hide Idx, First, Second, Third, Fourth, Group, Waiting1, Waiting2, Encoded, Begun, Whole, Joined;
    OneMoreByte(p, ch);
    WholeAndRest(p);
    BegunLength(Rest(p));
    RemainderOf(|p| / 3, |p| % 3);
  }

  lemma TextThenGroup(to: Octets, text: Octets, group: Octets)
    requires |text| + |group| <= |to| && to[..|text|] == text
    requires forall i | 0 <= i < |group| :: to[|text| + i] == group[i]
    ensures to[..|text + group|] == text + group
  {
  }

  lemma RemainderOf(k: nat, r: nat)
    requires r < 3
    ensures (4 * k + r) % 4 % 3 == r
  {
  }

  // ---------- Finishing, and the two whole directions ----------

  lemma FinishedGroup(q: Octets)
    requires 0 < |q| < 3
    ensures Encoded(q) == Joined(q, 0)[..|q| + 1] + (if |q| == 1 then [PAD, PAD] else [PAD])
  {
    hide Idx, First, Second, Third, Fourth, Waiting1, Waiting2, Join1, Join2;
    JoinedIsNext(q, 0);
  }

  /** A text is finished by encoding one zero byte more and padding over the rest of its group. */
  lemma FinishedIsEncoded(p: Octets)
    ensures |p| % 3 == 0 ==> Encoded(p) == InBuffer(p) && |Encoded(p)| == LengthAfter(p)
    ensures |p| % 3 > 0 ==>
        && LengthAfter(p) + 1 <= |InBuffer(p + [0])|
        && Encoded(p) == InBuffer(p + [0])[..LengthAfter(p) + 1] + (if |p| % 3 == 1 then [PAD, PAD] else [PAD])
  {
    hide Idx, First, Second, Third, Fourth, Waiting1, Waiting2, Join1, Join2, Encoded, Begun, Joined, Whole, Rest,
      InBuffer, LengthAfter;
    var text, q := Encoded(Whole(p)), Rest(p);
    WholeAndRest(p);
    Entering(p, 0);
    if q == [] {
      NothingEncoded();
    } else {
      FinishedGroup(q);
      assert (text + Joined(q, 0))[..|text| + |q| + 1] == text + Joined(q, 0)[..|q| + 1];
    }
  }

  lemma NothingEncoded()
    ensures Encoded([]) == [] && Begun([]) == []
  {
  }

  lemma GroupArithmetic(k: nat, r: nat)
    requires r < 3
    ensures (3 * k + r + 2) / 3 == k + (if r == 0 then 0 else 1)
    ensures (4 * k + r) % 4 == r && 4 * k % 4 == 0 && (4 * k + 4) % 4 == 0
  {
    DivModUnique(3 * k + r + 2, 3, if r == 0 then k else k + 1, if r == 0 then 2 else r - 1);
    DivModUnique(4 * k + r, 4, k, r);
    DivModUnique(4 * k, 4, k, 0);
    DivModUnique(4 * k + 4, 4, k + 1, 0);
  }

  lemma FinalLengths(p: Octets)
    ensures |Encoded(p)| == 4 * ((|p| + 2) / 3) && |Encoded(p)| % 4 == 0
    ensures |Encoded(p)| == LengthAfter(p) + (if |p| % 3 == 0 then 0 else 4 - |p| % 3)
    ensures LengthAfter(p) % 4 == |p| % 3
    ensures |p| % 3 > 0 ==> LengthAfter(p) + 3 <= |Encoded(p)| + 1
  {
    hide Encoded;
    TextLength(p);
    var k, r := |p| / 3, |p| % 3;
    GroupArithmetic(k, r);
    assert |p| == 3 * k + r;
  }

  /** mg_base64_final */
  method Final(to: array<Octet>, len: nat, ghost p: Octets) returns (newLen: nat)
    requires len == LengthAfter(p) && 4 * ((|p| + 2) / 3) < to.Length && |InBuffer(p)| <= to.Length
    requires to[..|InBuffer(p)|] == InBuffer(p)
    modifies to
    ensures newLen == |Encoded(p)| == 4 * ((|p| + 2) / 3)
    ensures to[..newLen] == Encoded(p) && to[newLen] == 0
  {
    hide Idx, First, Fourth, Waiting1, Waiting2, Join1, Join2, Encoded, Begun, Whole, Rest, InBuffer, LengthAfter;
    FinishedIsEncoded(p);
    LengthOfOneMore(p, 0);
    FinalLengths(p);
    var saved, n := len, len;
    if n % 4 != 0 {
      n := Update(0, to, n, p);
    }
    if saved % 4 == 2 {
      n := n - 1;
    }
    ghost var body, from := to[..n], n;
    assert saved % 4 > 0 ==> body == InBuffer(p + [0])[..n] by {
      if saved % 4 > 0 {
        Prefix(to[..], InBuffer(p + [0]), n);
      }
    }
    ghost var pads := if saved % 4 == 0 then [] else if saved % 4 == 1 then [PAD, PAD] else [PAD];
    assert Encoded(p) == body + pads;
    while n % 4 != 0
      invariant from <= n <= |Encoded(p)|
      invariant to[..n] == body + pads[..n - from]
      decreases |Encoded(p)| - n
    {
      to[n] := PAD;
      n := n + 1;
      assert to[..n] == to[..n - 1] + [PAD];
    }
    assert n == |Encoded(p)|;
    to[n] := 0;
    newLen := n;
  }

  lemma LengthOfOneMore(p: Octets, ch: Octet)
    ensures LengthAfter(p + [ch]) == LengthAfter(p) + (if |p| % 3 == 2 then 2 else 1)
    ensures |InBuffer(p + [ch])| >= LengthAfter(p + [ch])
  {
    OneMoreByte(p, ch);
    WholeAndRest(p + [ch]);
  }

  lemma Prefix(a: Octets, b: Octets, n: nat)
    requires n <= |b| <= |a| && a[..|b|] == b
    ensures a[..n] == b[..n]
  {
    assert a[..n] == a[..|b|][..n];
  }

  /** mg_base64_encode */
  method Encode(p: Octets, to: array<Octet>) returns (len: nat)
    requires 4 * ((|p| + 2) / 3) < to.Length
    modifies to
    ensures len == 4 * ((|p| + 2) / 3)
    ensures to[..len] == Encoded(p) && to[len] == 0
  {
    hide Encoded, InBuffer;
    len := 0;
    StartOfText();
    assert p[..0] == [];
    for i := 0 to |p|
      invariant len == LengthAfter(p[..i]) && |InBuffer(p[..i])| <= to.Length
      invariant to[..|InBuffer(p[..i])|] == InBuffer(p[..i])
    {
      RoomForOneMore(i, |p|);
      len := Update(p[i], to, len, p[..i]);
      assert p[..i] + [p[i]] == p[..i + 1];
    }
    assert p[..|p|] == p;
    len := Final(to, len, p);
  }

  lemma StartOfText()
    ensures InBuffer([]) == [] && LengthAfter([]) == 0
  {
    NothingEncoded();
  }

  lemma RoomForOneMore(i: nat, n: nat)
    requires i < n
    ensures 4 * (i / 3) + i % 3 + 2 <= 4 * ((n + 2) / 3) + 1
  {
  }

  /** The bytes of the groups already decoded, before those still to come. */
  function Before(done: Octets, rest: Decoding): Decoding {
    if rest.Refused? then Refused else Bytes(done + rest.bytes)
  }

  /** The stores of one round of mg_base64_decode: padding says how many of the three bytes there are. */
  method StoreGroup(dst: array<Octet>, len: nat, s2: Octet, s3: Octet, b0: Octet, b1: Octet, b2: Octet)
    returns (newLen: nat)
    requires len + 3 <= dst.Length
    modifies dst
    ensures newLen == len + (if s2 == PAD then 1 else if s3 == PAD then 2 else 3)
    ensures dst[..newLen] ==
            old(dst[..len]) + (if s2 == PAD then [b0] else if s3 == PAD then [b0, b1] else [b0, b1, b2])
  {
    newLen := len;
    dst[newLen] := b0;
    newLen := newLen + 1;
    if s2 != PAD {
      dst[newLen] := b1;
      newLen := newLen + 1;
      if s3 != PAD {
        dst[newLen] := b2;
        newLen := newLen + 1;
      }
    }
  }

  /** mg_base64_decode; a refused text leaves length 0 and no terminator. */
  method Decode(src: Octets, dst: array<Octet>) returns (len: nat)
    requires 3 * (|src| / 4) < dst.Length
    modifies dst
    ensures Decoded(src).Refused? ==> len == 0
    ensures Decoded(src).Bytes? ==> len == |Decoded(src).bytes| < dst.Length
    ensures Decoded(src).Bytes? ==> dst[..len] == Decoded(src).bytes && dst[len] == 0
  {
    hide Rev, Byte0, Byte1, Byte2, DecodeGroup, Decoded, Before;
    len := 0;
    var at := 0;
    ghost var groups := 0;
    NothingDone(src);
    assert dst[..0] == [] && src[0..] == src;
    while at + 3 < |src|
      invariant at == 4 * groups <= |src| && len <= 3 * groups
      invariant len < dst.Length
      invariant Decoded(src) == Before(dst[..len], Decoded(src[at..]))
    {
      var a, b, c, d := Rev(src[at]), Rev(src[at + 1]), Rev(src[at + 2]), Rev(src[at + 3]);
      ghost var done, head := dst[..len], DecodeGroup(src[at], src[at + 1], src[at + 2], src[at + 3]);
      GroupAt(src, at, done);
      GroupBytes(src[at], src[at + 1], src[at + 2], src[at + 3]);
      RoomForGroup(groups, |src|);
      if a == 64 || a == INVALID || b == 64 || b == INVALID || c == INVALID || d == INVALID {
        return 0;
      }
      len := StoreGroup(dst, len, src[at + 2], src[at + 3], Byte0(a, b), Byte1(b, c), Byte2(c, d));
      assert dst[..len] == done + head.bytes;
      at := at + 4;
      groups := groups + 1;
    }
    LastBytes(src, at, dst[..len]);
    dst[len] := 0;
  }

  lemma RoomForGroup(groups: nat, size: nat)
    requires 4 * groups + 3 < size
    ensures 3 * groups + 3 <= 3 * (size / 4)
  {
  }

  lemma NothingDone(src: Octets)
    ensures Decoded(src) == Before([], Decoded(src))
  {
    hide Decoded;
  }

  lemma LastBytes(src: Octets, at: nat, done: Octets)
    requires at <= |src| <= at + 3
    ensures Before(done, Decoded(src[at..])) == Bytes(done)
  {
  }

  lemma GroupBytes(s0: Octet, s1: Octet, s2: Octet, s3: Octet)
    ensures var a, b, c, d := Rev(s0), Rev(s1), Rev(s2), Rev(s3);
            DecodeGroup(s0, s1, s2, s3) ==
              if a == 64 || a == INVALID || b == 64 || b == INVALID || c == INVALID || d == INVALID then Refused
              else if s2 == PAD then Bytes([Byte0(a, b)])
              else if s3 == PAD then Bytes([Byte0(a, b), Byte1(b, c)])
              else Bytes([Byte0(a, b), Byte1(b, c), Byte2(c, d)])
  {
    hide Rev, Byte0, Byte1, Byte2;
  }

  lemma GroupAt(src: Octets, at: nat, done: Octets)
    requires at + 3 < |src|
    ensures var head := DecodeGroup(src[at], src[at + 1], src[at + 2], src[at + 3]);
            Before(done, Decoded(src[at..])) ==
              if head.Refused? then Refused else Before(done + head.bytes, Decoded(src[at + 4..]))
  {
    hide DecodeGroup;
    var s := src[at..];
    assert s[4..] == src[at + 4..];
    var head, tail := DecodeGroup(s[0], s[1], s[2], s[3]), Decoded(s[4..]);
    if head.Bytes? && tail.Bytes? {
      assert done + (head.bytes + tail.bytes) == done + head.bytes + tail.bytes;
    }
  }
}
