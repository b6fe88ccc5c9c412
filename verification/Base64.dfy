/**
 EncodeBase64 and DecodeBase64: three bytes to four codes, with a CRLF at the
 start, after every sixteen groups and after padding.
 */
module Base64 {
  type byte = bv8

  const CR: byte := 13
  const LF: byte := 10
  const PAD: byte := 61

  // ----- one group -----------------------------------------------------------

  /** The code character of six bits. */
  function CodeOf(k: bv32): byte {
    if k < 26 then (k + 65) as byte
    else if k < 52 then (k + 71) as byte
    else if k < 62 then (k - 4) as byte
    else if k == 62 then 43
    else 47
  }

  function Sextet(x: bv32): (k: bv32)
    ensures k < 64
  {
    x & 0x3f
  }

  /** Three bytes in one word. */
  function Word(a: byte, b: byte, c: byte): bv32 {
    Join(Join(a as bv32, b), c)
  }

  /** Eight more bits behind those of a word. */
  function Join(word: bv32, c: byte): bv32 { (word << 8) | c as bv32 }

  function Shift6(x: bv32): bv32 { x >> 6 }
  function Shift8(x: bv32): bv32 { x >> 8 }

  /** Six more bits behind those of a word. */
  function Push(word: bv32, bits: bv32): bv32 { (word << 6) | bits }

  /** The word after `j` shifts. */
  function Down(x: bv32, j: nat): bv32 { if j == 0 then x else Shift6(Down(x, j - 1)) }

  /** The four characters of a word, the last `pad` of them padding. */
  function Quad(x: bv32, pad: nat): (q: seq<byte>)
    ensures |q| == 4
  {
    [CodeOf(Sextet(Down(x, 3))), CodeOf(Sextet(Down(x, 2))),
     if pad > 1 then PAD else CodeOf(Sextet(Down(x, 1))), if pad > 0 then PAD else CodeOf(Sextet(x))]
  }

  function At(b: seq<byte>, i: nat): byte { if i < |b| then b[i] else 0 }

  function PadOf(b: seq<byte>, i: nat): nat { if i + 2 < |b| then 0 else if i + 1 < |b| then 1 else 2 }

  function GroupWord(b: seq<byte>, i: nat): bv32 { Word(At(b, i), At(b, i + 1), At(b, i + 2)) }

  /** The text from offset `p` on, for the bytes from `i` on. */
  function EncodeFrom(b: seq<byte>, i: nat, p: nat): seq<byte>
    decreases |b| - i
  {
    if i >= |b| then []
    else
      var pad := PadOf(b, i);
      var line := (p + 4) % 66 == 0 || pad > 0;
      Quad(GroupWord(b, i), pad) + (if line then [CR, LF] else []) + EncodeFrom(b, i + 3, p + if line then 6 else 4)
  }

  function Encode(b: seq<byte>): seq<byte> { [CR, LF] + EncodeFrom(b, 0, 2) }

  /** The code characters: 'A' to 'Z', 'a' to 'z', '0' to '9', '+' and '/'. */
  lemma Alphabet(k: bv32)
    ensures CodeOf(0) == 65 && CodeOf(25) == 90 && CodeOf(26) == 97 && CodeOf(51) == 122
    ensures CodeOf(52) == 48 && CodeOf(61) == 57 && CodeOf(62) == 43 && CodeOf(63) == 47
    ensures k < 62 && k != 25 && k != 51 && k != 61 ==> CodeOf(k + 1) == CodeOf(k) + 1
  {
  }

  /** The test vectors of section 10 of RFC 4648 with up to three bytes: "foo" is "Zm9v", "fo" is "Zm8=" and "f" is
      "Zg==". */
  lemma TestVectors()
    ensures Encode([102, 111, 111]) == [CR, LF, 90, 109, 57, 118]
    ensures Encode([102, 111]) == [CR, LF, 90, 109, 56, PAD, CR, LF]
    ensures Encode([102]) == [CR, LF, 90, 103, PAD, PAD, CR, LF]
  {
    assert Quad(GroupWord([102, 111, 111], 0), 0) == [90, 109, 57, 118];
    assert EncodeFrom([102, 111, 111], 3, 6) == [];
    assert Quad(GroupWord([102, 111], 0), 1) == [90, 109, 56, PAD];
    assert EncodeFrom([102, 111], 3, 8) == [];
    assert Quad(GroupWord([102], 0), 2) == [90, 103, PAD, PAD];
    assert EncodeFrom([102], 3, 8) == [];
  }

  // ----- the size estimate ---------------------------------------------------

  function Estimate(n: nat): nat { var m := n + n / 3 + 3; m + (m / 64) * 2 + 4 }

  /** Where the text of the bytes before `i` ends: four characters a group, a line end every sixteen groups. */
  function OffsetAt(i: nat): nat { 2 + 4 * (i / 3) + 2 * (i / 48) }

  lemma OffsetStep(i: nat)
    requires i % 3 == 0
    ensures OffsetAt(i + 3) == OffsetAt(i) + (if (OffsetAt(i) + 4) % 66 == 0 then 6 else 4)
  {
    var g, q := i / 3, i / 48;
    assert i == 3 * g && g / 16 == q;
    var r := g % 16;
    assert g == 16 * q + r && OffsetAt(i) + 4 == 66 * q + 4 * r + 6;
    LineEnd(q, r);
  }

  lemma LineEnd(q: nat, r: nat)
    requires r < 16
    ensures (66 * q + 4 * r + 6) % 66 == 0 <==> r == 15
  {
    if r == 15 {
      assert 66 * q + 4 * r + 6 == 66 * (q + 1);
      Multiple(q + 1, 0);
    } else {
      Multiple(q, 4 * r + 6);
    }
  }

  lemma Multiple(q: nat, m: nat)
    requires m < 66
    ensures (66 * q + m) % 66 == m
  {
  }

  function TotalLength(n: nat): nat { if n % 3 == 0 then OffsetAt(n) else OffsetAt(n - n % 3) + 6 }

  lemma {:induction false} EncodeLength(b: seq<byte>, i: nat)
    requires i % 3 == 0 && i <= |b|
    ensures OffsetAt(i) + |EncodeFrom(b, i, OffsetAt(i))| == TotalLength(|b|)
    decreases |b| - i
  {
    hide OffsetAt, Quad, GroupWord;
    if i < |b| {
      OffsetStep(i);
      if i + 3 <= |b| {
        EncodeLength(b, i + 3);
      } else {
        assert EncodeFrom(b, i + 3, OffsetAt(i) + 6) == [];
        assert i == |b| - |b| % 3;
      }
    }
  }

  /** The text never exceeds the estimate, and fills it completely exactly in one case. */
  lemma EstimateEnough(n: nat)
    ensures TotalLength(n) <= Estimate(n)
    ensures TotalLength(n) == Estimate(n) <==> n % 3 == 1 && ((n + 2) / 3) % 16 != 0
  {
    hide TotalLength, Estimate;
    var k := n / 3;
    var q, r := k / 16, k % 16;
    TotalIs(n, k, q, r);
    EstimateIs(n, k, q, r);
    assert n % 3 == 1 ==> (n + 2) / 3 == k + 1 && ((k + 1) % 16 == 0 <==> r == 15);
  }

  lemma TotalIs(n: nat, k: nat, q: nat, r: nat)
    requires n / 3 == k && k == 16 * q + r && r < 16
    ensures TotalLength(n) == 2 + 4 * k + 2 * q + (if n % 3 == 0 then 0 else 6)
  {
    var m := n - n % 3;
    assert m == 3 * k && m / 3 == k && m / 48 == q;
  }

  lemma EstimateIs(n: nat, k: nat, q: nat, r: nat)
    requires n / 3 == k && k == 16 * q + r && r < 16
    ensures Estimate(n) == 4 * k + n % 3 + 7 + 2 * (q + if 4 * r + 3 + n % 3 >= 64 then 1 else 0)
  {
    var m := n + n / 3 + 3;
    assert m == 64 * q + (4 * r + 3 + n % 3);
  }

  // ----- decoding ------------------------------------------------------------

  /** The bits a character contributes. */
  function BitsOf(c: byte): bv32 {
    var code := c as bv32;
    if code > 96 then code - 71
    else if code > 64 then code - 65
    else if code == 61 then 0
    else if code > 47 then code + 4
    else if code == 47 then 63
    else if code == 43 then 62
    else 0
  }

  /** The inner loop of DecodeBase64: up to four characters from `i` on. */
  datatype Gathered = Gathered(next: nat, count: nat, word: bv32, pad: nat)

  function Gather(s: seq<byte>, i: nat, count: nat, word: bv32, pad: nat): (r: Gathered)
    requires i <= |s| && count <= 4
    ensures i <= r.next <= |s| && count <= r.count <= 4 && pad <= r.pad && (count < 4 && i < |s| ==> i < r.next)
    ensures r.count < 4 ==> r.next == |s|
    decreases |s| - i
  {
    if count == 4 || i == |s| then Gathered(i, count, word, pad)
    else if s[i] == CR || s[i] == LF then Gather(s, i + 1, count, word, pad)
    else Gather(s, i + 1, count + 1, Push(word, BitsOf(s[i])), if s[i] == PAD then pad + 1 else pad)
  }

  function LowByte(x: bv32): byte { (x & 0xff) as byte }

  /** The stores of one group: the three bytes of the word, the last `pad` of them left out. */
  function Store(buf: seq<byte>, off: int, word: bv32, pad: nat): (r: seq<byte>)
    requires pad < 3 ==> 0 <= off && off + 3 - pad <= |buf|
    ensures |r| == |buf|
  {
    if pad >= 3 then buf
    else
      var b0 := buf[off := LowByte(Shift8(Shift8(word)))];
      if pad == 2 then b0
      else
        var b1 := b0[off + 1 := LowByte(Shift8(word))];
        if pad == 1 then b1 else b1[off + 2 := LowByte(word)]
  }

  /** DecodeBase64 from character `i` on: the value returned and the buffer. While fewer than three paddings were met,
      `off` is not negative. */
  function DecodeFrom(s: seq<byte>, i: nat, buf: seq<byte>, off: int, pad: nat): (r: (int, seq<byte>))
    requires i <= |s| && (pad < 3 ==> 0 <= off)
    ensures |r.1| == |buf|
    decreases |s| - i
  {
    if i == |s| then (off, buf)
    else
      var g := Gather(s, i, 0, 0, pad);
      if g.count < 4 then (off, buf)
      else if off + 3 - g.pad > |buf| then (0, buf)
      else DecodeFrom(s, g.next, Store(buf, off, g.word, g.pad), off + 3 - g.pad, g.pad)
  }

  function Decode(s: seq<byte>, buf: seq<byte>): (r: (int, seq<byte>))
    ensures |r.1| == |buf|
  {
    if |buf| == 0 then ((|s| / 4) * 3 + 3, buf) else DecodeFrom(s, 0, buf, 0, 0)
  }

  // ----- round trip ----------------------------------------------------------

  /** A code character is neither a line end nor padding, and gives its six bits back. */
  lemma CodeBits(k: bv32)
    requires k < 64
    ensures BitsOf(CodeOf(k)) == k && CodeOf(k) != CR && CodeOf(k) != LF && CodeOf(k) != PAD
  {
  }

  /** The word read from four characters: six bits each, none for padding. */
  function Read(a: bv32, b: bv32, c: bv32, d: bv32): bv32 {
    Push(Push(Push(Push(0, a), b), c), d)
  }

  /** Six bits shifted out and pushed back. */
  lemma PushBack(x: bv32)
    ensures Push(Shift6(x), Sextet(x)) == x
  {
  }

  lemma TopSextet(x: bv32)
    requires x < 0x1000000
    ensures Push(0, Sextet(Shift6(Shift6(Shift6(x))))) == Shift6(Shift6(Shift6(x)))
  {
  }

  lemma RawBytes(a: bv32, b: bv32, c: bv32)
    requires a < 256 && b < 256 && c < 256
    ensures var x := (((a << 8) | b) << 8) | c;
            && x < 0x1000000 && (x >> 8 >> 8) & 0xff == a && (x >> 8) & 0xff == b && x & 0xff == c
            && (c == 0 ==> x & 0x3f == 0) && (b == 0 && c == 0 ==> (x >> 6) & 0x3f == 0)
  {
  }

  lemma SextetsBack(x: bv32)
    requires x < 0x1000000
    ensures Read(Sextet(Shift6(Shift6(Shift6(x)))), Sextet(Shift6(Shift6(x))), Sextet(Shift6(x)), Sextet(x)) == x
  {
    hide Push, Sextet, Shift6;
    TopSextet(x);
    PushBack(Shift6(Shift6(x)));
    PushBack(Shift6(x));
    PushBack(x);
  }

  lemma BytesBack(a: byte, b: byte, c: byte)
    ensures var x := Word(a, b, c);
            && x < 0x1000000 && LowByte(Shift8(Shift8(x))) == a && LowByte(Shift8(x)) == b && LowByte(x) == c
            && (c == 0 ==> Sextet(x) == 0) && (b == 0 && c == 0 ==> Sextet(Shift6(x)) == 0)
  {
    RawBytes(a as bv32, b as bv32, c as bv32);
  }

  lemma WordBits(a: byte, b: byte, c: byte)
    ensures var x := Word(a, b, c);
            && Read(Sextet(Shift6(Shift6(Shift6(x)))), Sextet(Shift6(Shift6(x))), Sextet(Shift6(x)), Sextet(x)) == x
            && (c == 0 ==> Sextet(x) == 0) && (b == 0 && c == 0 ==> Sextet(Shift6(x)) == 0)
            && LowByte(Shift8(Shift8(x))) == a && LowByte(Shift8(x)) == b && LowByte(x) == c
  {
    hide Word, Read, Sextet, Shift6, Shift8, LowByte;
    BytesBack(a, b, c);
    SextetsBack(Word(a, b, c));
  }

  lemma DownIs(x: bv32)
    ensures Down(x, 1) == Shift6(x) && Down(x, 2) == Shift6(Shift6(x)) && Down(x, 3) == Shift6(Shift6(Shift6(x)))
  {
    hide Shift6;
    assert Down(x, 0) == x;
    assert Down(x, 1) == Shift6(Down(x, 0));
    assert Down(x, 2) == Shift6(Down(x, 1));
  }

  /** The bits a character of a group contributes. */
  lemma PadBits()
    ensures BitsOf(PAD) == 0
  {
  }

  lemma GatherOne(s: seq<byte>, i: nat, count: nat, word: bv32, pad: nat, c: byte)
    requires i < |s| && count < 4 && s[i] == c && c != CR && c != LF
    ensures Gather(s, i, count, word, pad) == Gather(s, i + 1, count + 1, Push(word, BitsOf(c)),
                if c == PAD then pad + 1 else pad)
  {
    hide BitsOf, Push;
  }

  lemma GatherDone(s: seq<byte>, i: nat, word: bv32, pad: nat)
    requires i <= |s|
    ensures Gather(s, i, 4, word, pad) == Gathered(i, 4, word, pad)
  {
    hide BitsOf, Push;
  }

  lemma GatherFour(s: seq<byte>, p: nat, a: byte, b: byte, c: byte, d: byte)
    requires p + 4 <= |s| && s[p] == a && s[p + 1] == b && s[p + 2] == c && s[p + 3] == d
    requires forall x :: x in [a, b, c, d] ==> x != CR && x != LF
    ensures Gather(s, p, 0, 0, 0) ==
      Gathered(p + 4, 4, Read(BitsOf(a), BitsOf(b), BitsOf(c), BitsOf(d)), Pads([a, b, c, d]))
  {
    hide BitsOf, Gather, Push;
    assert a in [a, b, c, d] && b in [a, b, c, d] && c in [a, b, c, d] && d in [a, b, c, d];
    var w1 := Push(0, BitsOf(a));
    var w2 := Push(w1, BitsOf(b));
    var w3 := Push(w2, BitsOf(c));
    var n1 := if a == PAD then 1 else 0;
    var n2 := if b == PAD then n1 + 1 else n1;
    var n3 := if c == PAD then n2 + 1 else n2;
    GatherOne(s, p, 0, 0, 0, a);
    GatherOne(s, p + 1, 1, w1, n1, b);
    GatherOne(s, p + 2, 2, w2, n2, c);
    GatherOne(s, p + 3, 3, w3, n3, d);
    GatherDone(s, p + 4, Push(w3, BitsOf(d)), if d == PAD then n3 + 1 else n3);
  }

  function Pads(q: seq<byte>): nat
    requires |q| == 4
  {
    (if q[0] == PAD then 1 else 0) + (if q[1] == PAD then 1 else 0)
    + (if q[2] == PAD then 1 else 0) + (if q[3] == PAD then 1 else 0)
  }

  /** Reading a group gives back its word and its padding. */
  lemma GatherQuad(s: seq<byte>, p: nat, a: byte, b: byte, c: byte, pad: nat)
    requires pad <= 2 && (pad >= 1 ==> c == 0) && (pad == 2 ==> b == 0)
    requires p + 4 <= |s| && s[p..p + 4] == Quad(Word(a, b, c), pad)
    ensures Gather(s, p, 0, 0, 0) == Gathered(p + 4, 4, Word(a, b, c), pad)
  {
    hide BitsOf, CodeOf, Gather, Sextet, Word, Read, Down, Shift6, Push;
    var x := Word(a, b, c);
    var q := Quad(x, pad);
    assert s[p] == q[0] && s[p + 1] == q[1] && s[p + 2] == q[2] && s[p + 3] == q[3];
    DownIs(x);
    WordBits(a, b, c);
    CodeBits(Sextet(x));
    CodeBits(Sextet(Shift6(x)));
    CodeBits(Sextet(Shift6(Shift6(x))));
    CodeBits(Sextet(Shift6(Shift6(Shift6(x)))));
    PadBits();
    GatherFour(s, p, q[0], q[1], q[2], q[3]);
    assert q == [q[0], q[1], q[2], q[3]];
  }

  /** Line ends are skipped. */
  lemma SkipLine(s: seq<byte>, p: nat, buf: seq<byte>, off: int, pad: nat)
    requires p + 2 <= |s| && s[p] == CR && s[p + 1] == LF && (pad < 3 ==> 0 <= off)
    ensures DecodeFrom(s, p, buf, off, pad) == DecodeFrom(s, p + 2, buf, off, pad)
  {
    hide BitsOf, Store, Push;
    assert Gather(s, p, 0, 0, pad) == Gather(s, p + 1, 0, 0, pad) == Gather(s, p + 2, 0, 0, pad);
  }

  lemma StoreGroup(b: seq<byte>, buf: seq<byte>, i: nat)
    requires i < |b| <= |buf| && buf[..i] == b[..i]
    ensures var pad := PadOf(b, i); var r := Store(buf, i, GroupWord(b, i), pad);
            i + 3 - pad <= |b| && r[..i + 3 - pad] == b[..i + 3 - pad]
  {
    hide Word, LowByte, Shift8;
    WordBits(At(b, i), At(b, i + 1), At(b, i + 2));
    var pad := PadOf(b, i);
    var r := Store(buf, i, GroupWord(b, i), pad);
    forall k | 0 <= k < i ensures r[k] == b[k] {
      assert buf[..i][k] == b[..i][k];
    }
  }

  /** One group of the text is decoded. */
  lemma DecodeGroup(b: seq<byte>, s: seq<byte>, i: nat, p: nat, buf: seq<byte>)
    requires i < |b| <= |buf| && p + 4 <= |s| && s[p..p + 4] == Quad(GroupWord(b, i), PadOf(b, i))
    ensures var pad := PadOf(b, i);
            && i + 3 - pad <= |buf|
            && DecodeFrom(s, p, buf, i, 0) ==
               DecodeFrom(s, p + 4, Store(buf, i, GroupWord(b, i), pad), i + 3 - pad, pad)
  {
    hide Store, Quad, Word, Gather;
    GatherQuad(s, p, At(b, i), At(b, i + 1), At(b, i + 2), PadOf(b, i));
  }

  lemma TextParts(b: seq<byte>, s: seq<byte>, i: nat, p: nat)
    requires i < |b| && p <= |s| && s[p..] == EncodeFrom(b, i, p)
    ensures var pad := PadOf(b, i); var line := (p + 4) % 66 == 0 || pad > 0;
            && p + 4 + (if line then 2 else 0) <= |s| && s[p..p + 4] == Quad(GroupWord(b, i), pad)
            && (line ==> s[p + 4] == CR && s[p + 5] == LF)
            && s[p + 4 + (if line then 2 else 0)..] == EncodeFrom(b, i + 3, p + 4 + (if line then 2 else 0))
  {
    hide Quad, GroupWord;
    var pad := PadOf(b, i);
    var line := (p + 4) % 66 == 0 || pad > 0;
    var q, rest := Quad(GroupWord(b, i), pad), EncodeFrom(b, i + 3, p + if line then 6 else 4);
    var mid := if line then [CR, LF] else [];
    Parts(s, p, q, mid, rest);
  }

  lemma Parts(s: seq<byte>, p: nat, q: seq<byte>, mid: seq<byte>, rest: seq<byte>)
    requires p <= |s| && s[p..] == q + mid + rest
    ensures p + |q| + |mid| <= |s| && s[p..p + |q|] == q && s[p + |q|..p + |q| + |mid|] == mid &&
            s[p + |q| + |mid|..] == rest
  {
    assert |s| - p == |q| + |mid| + |rest|;
    assert s[p..p + |q|] == s[p..][..|q|];
    assert s[p + |q|..p + |q| + |mid|] == s[p..][|q|..|q| + |mid|];
    assert s[p + |q| + |mid|..] == s[p..][|q| + |mid|..];
  }

  lemma {:induction false} DecodeEncoded(b: seq<byte>, s: seq<byte>, i: nat, p: nat, buf: seq<byte>)
    requires i <= |b| <= |buf| && p <= |s| && s[p..] == EncodeFrom(b, i, p) && buf[..i] == b[..i]
    ensures var r := DecodeFrom(s, p, buf, i, 0); r.0 == |b| && r.1[..|b|] == b
    decreases |b| - i
  {
    hide Quad, GroupWord, Store, DecodeFrom, EncodeFrom;
    if i == |b| {
      NothingLeft(b, s, p, buf);
    } else {
      var pad := PadOf(b, i);
      var line := (p + 4) % 66 == 0 || pad > 0;
      var p' := p + 4 + (if line then 2 else 0);
      TextParts(b, s, i, p);
      DecodeGroup(b, s, i, p, buf);
      StoreGroup(b, buf, i);
      var buf' := Store(buf, i, GroupWord(b, i), pad);
      if line { SkipLine(s, p + 4, buf', i + 3 - pad, pad); }
      if pad == 0 {
        DecodeEncoded(b, s, i + 3, p', buf');
      } else {
        PastEnd(b, s, i + 3, p', buf', i + 3 - pad, pad);
        assert b[..|b|] == b;
      }
    }
  }

  lemma NothingLeft(b: seq<byte>, s: seq<byte>, p: nat, buf: seq<byte>)
    requires p <= |s| && s[p..] == EncodeFrom(b, |b|, p) && |b| <= |buf| && buf[..|b|] == b[..|b|]
    ensures DecodeFrom(s, p, buf, |b|, 0) == (|b|, buf) && buf[..|b|] == b
  {
    assert |s[p..]| == 0;
    assert b[..|b|] == b;
  }

  lemma PastEnd(b: seq<byte>, s: seq<byte>, i: nat, p: nat, buf: seq<byte>, off: nat, pad: nat)
    requires p <= |s| && i >= |b| && s[p..] == EncodeFrom(b, i, p)
    ensures DecodeFrom(s, p, buf, off, pad) == (off, buf)
  {
    assert |s[p..]| == 0;
  }

  /** Decoding an encoded byte string gives the string back, in any buffer that can hold it... */
  lemma RoundTrip(b: seq<byte>, buf: seq<byte>)
    requires 0 < |buf| && |b| <= |buf|
    ensures var r := Decode(Encode(b), buf); r.0 == |b| && r.1[..|b|] == b
  {
    hide EncodeFrom, DecodeFrom;
    var s := Encode(b);
    assert s[2..] == EncodeFrom(b, 0, 2);
    SkipLine(s, 0, buf, 0, 0);
    DecodeEncoded(b, s, 0, 2, buf);
  }

  /** ...and the length query promises such a buffer. */
  lemma QueryEnough(b: seq<byte>)
    ensures Decode(Encode(b), []).0 >= |b|
  {
    hide EncodeFrom;
    EncodeLength(b, 0);
    assert OffsetAt(0) == 2;
    LengthBound(|b|);
  }

  lemma LengthBound(n: nat)
    ensures (TotalLength(n) / 4) * 3 + 3 >= n
  {
  }

  // ----- the length of any text ----------------------------------------------

  predicate IsEol(c: byte) { c == CR || c == LF }

  /** The characters before `i` that are not line ends. */
  function Codes(s: seq<byte>, i: nat): (c: seq<byte>)
    requires i <= |s|
    ensures |c| <= i
  {
    if i == 0 then [] else if IsEol(s[i - 1]) then Codes(s, i - 1) else Codes(s, i - 1) + [s[i - 1]]
  }

  function Paddings(c: seq<byte>): (n: nat)
    ensures n <= |c|
  {
    if c == [] then 0 else Paddings(c[..|c| - 1]) + (if c[|c| - 1] == PAD then 1 else 0)
  }

  /** What `g` groups of four characters decode to: three bytes each, less all the padding met so far, again and
      again. */
  function Length(c: seq<byte>, g: nat): int
    requires 4 * g <= |c|
  {
    if g == 0 then 0 else Length(c, g - 1) + 3 - Paddings(c[..4 * g])
  }

  lemma PaddingsOne(c: seq<byte>, x: byte)
    ensures Paddings(c + [x]) == Paddings(c) + if x == PAD then 1 else 0
  {
    assert (c + [x])[..|c|] == c;
  }

  lemma {:induction false} PaddingsGrow(c: seq<byte>, i: nat)
    requires i <= |c|
    ensures Paddings(c[..i]) <= Paddings(c)
    decreases |c|
  {
    if i == |c| {
      assert c[..i] == c;
    } else {
      assert c[..|c| - 1][..i] == c[..i];
      PaddingsGrow(c[..|c| - 1], i);
    }
  }

  lemma {:induction false} CodesPrefix(s: seq<byte>, i: nat, j: nat)
    requires i <= j <= |s|
    ensures var a, b := Codes(s, i), Codes(s, j); |a| <= |b| && b[..|a|] == a
    decreases j
  {
    if i < j { CodesPrefix(s, i, j - 1); }
  }

  lemma {:induction false} CodesPaddings(s: seq<byte>, i: nat)
    requires i <= |s|
    ensures Paddings(Codes(s, i)) == Paddings(s[..i])
  {
    hide Paddings;
    if i == 0 {
      assert s[..i] == Codes(s, i);
    } else {
      CodesPaddings(s, i - 1);
      assert s[..i] == s[..i - 1] + [s[i - 1]];
      PaddingsOne(s[..i - 1], s[i - 1]);
      PaddingsOne(Codes(s, i - 1), s[i - 1]);
    }
  }

  lemma CodesStep(s: seq<byte>, i: nat)
    requires i < |s|
    ensures Codes(s, i + 1) == if IsEol(s[i]) then Codes(s, i) else Codes(s, i) + [s[i]]
  {
  }

  lemma GatherEol(s: seq<byte>, i: nat, count: nat, word: bv32, pad: nat)
    requires i < |s| && count < 4 && IsEol(s[i])
    ensures Gather(s, i, count, word, pad) == Gather(s, i + 1, count, word, pad)
  {
    hide BitsOf, Push;
  }

  lemma GatherEnd(s: seq<byte>, i: nat, count: nat, word: bv32, pad: nat)
    requires i <= |s| && count <= 4 && (count == 4 || i == |s|)
    ensures Gather(s, i, count, word, pad) == Gathered(i, count, word, pad)
  {
    hide BitsOf, Push;
  }

  /** What the inner loop reads. */
  lemma {:induction false} GatherCodes(s: seq<byte>, i: nat, count: nat, word: bv32, pad: nat)
    requires i <= |s| && count <= 4 && pad == Paddings(Codes(s, i))
    ensures var r := Gather(s, i, count, word, pad);
            |Codes(s, r.next)| == |Codes(s, i)| + r.count - count && r.pad == Paddings(Codes(s, r.next))
    decreases |s| - i
  {
    hide BitsOf, Push, Paddings, Codes, Gather;
    if count == 4 || i == |s| {
      GatherEnd(s, i, count, word, pad);
    } else {
      PaddingsOne(Codes(s, i), s[i]);
      CodesStep(s, i);
      if IsEol(s[i]) {
        GatherEol(s, i, count, word, pad);
        GatherCodes(s, i + 1, count, word, pad);
      } else {
        GatherOne(s, i, count, word, pad, s[i]);
        GatherCodes(s, i + 1, count + 1, Push(word, BitsOf(s[i])), if s[i] == PAD then pad + 1 else pad);
      }
    }
  }

  /** Some group does not fit into the buffer. */
  ghost predicate Overflows(c: seq<byte>, from: nat, size: nat) {
    exists g: nat :: from < g <= |c| / 4 && Length(c, g) > size
  }

  lemma {:induction false} LengthFrom(s: seq<byte>, i: nat, buf: seq<byte>, g: nat, off: int, pad: nat)
    requires i <= |s| && (pad < 3 ==> 0 <= off)
    requires var a, c := Codes(s, i), Codes(s, |s|); |a| == 4 * g <= |c| && pad == Paddings(a) && off == Length(c, g)
    ensures var c := Codes(s, |s|);
            DecodeFrom(s, i, buf, off, pad).0 == if Overflows(c, g, |buf|) then 0 else Length(c, |c| / 4)
    decreases |s| - i
  {
    hide Gather, Store, Length, Codes, Paddings;
    var c := Codes(s, |s|);
    if i < |s| {
      var r := Gather(s, i, 0, 0, pad);
      GatherCodes(s, i, 0, 0, pad);
      CodesPrefix(s, r.next, |s|);
      if r.count == 4 {
        assert c[..4 * (g + 1)] == Codes(s, r.next);
        LengthStep(c, g);
        if off + 3 - r.pad <= |buf| {
          LengthFrom(s, r.next, Store(buf, off, r.word, r.pad), g + 1, off + 3 - r.pad, r.pad);
          OverflowsLater(c, g, |buf|);
        }
      }
    }
  }

  lemma LengthStep(c: seq<byte>, g: nat)
    requires 4 * (g + 1) <= |c|
    ensures Length(c, g + 1) == Length(c, g) + 3 - Paddings(c[..4 * (g + 1)])
  {
  }

  lemma OverflowsLater(c: seq<byte>, g: nat, size: nat)
    requires 4 * (g + 1) <= |c| && Length(c, g + 1) <= size
    ensures Overflows(c, g, size) <==> Overflows(c, g + 1, size)
  {
    hide Length;
  }

  /** The length DecodeBase64 returns for any text and any buffer. */
  lemma DecodeLength(s: seq<byte>, buf: seq<byte>)
    requires |buf| > 0
    ensures var c := Codes(s, |s|); Decode(s, buf).0 == if Overflows(c, 0, |buf|) then 0 else Length(c, |c| / 4)
  {
    LengthFrom(s, 0, buf, 0, 0, 0);
  }

  /** It is negative exactly if no group overflows the buffer and the sum over the groups is negative. */
  lemma NegativeIff(s: seq<byte>, buf: seq<byte>)
    ensures var c := Codes(s, |s|);
            Decode(s, buf).0 < 0 <==> |buf| > 0 && !Overflows(c, 0, |buf|) && Length(c, |c| / 4) < 0
  {
    hide Codes, Overflows, Length, DecodeFrom;
    if |buf| > 0 { DecodeLength(s, buf); }
  }

  lemma {:induction false} LengthPositive(c: seq<byte>, g: nat)
    requires 4 * g <= |c| && Paddings(c) <= 3
    ensures Length(c, g) >= 0
  {
    if g > 0 {
      LengthPositive(c, g - 1);
      PaddingsGrow(c, 4 * g);
    }
  }

  /** A text with at most three paddings has no negative length. */
  lemma FewPaddings(s: seq<byte>, buf: seq<byte>)
    requires Paddings(s) <= 3
    ensures Decode(s, buf).0 >= 0
  {
    hide Codes, Overflows, Length, DecodeFrom, Paddings;
    NegativeIff(s, buf);
    CodesPaddings(s, |s|);
    assert s[..|s|] == s;
    LengthPositive(Codes(s, |s|), |Codes(s, |s|)| / 4);
  }

  lemma {:induction false} LengthPlain(c: seq<byte>, g: nat)
    requires 4 * g <= |c| && Paddings(c[..4 * g]) == 0
    ensures Length(c, g) == 3 * g
    decreases g
  {
    if g > 0 {
      assert c[..4 * g][..4 * (g - 1)] == c[..4 * (g - 1)];
      PaddingsGrow(c[..4 * g], 4 * (g - 1));
      LengthPlain(c, g - 1);
    }
  }

  /** With padding in the last group only, the length is three bytes a group less that padding. */
  lemma LastPadded(c: seq<byte>, g: nat)
    requires 4 * (g + 1) <= |c| && Paddings(c[..4 * g]) == 0
    ensures Length(c, g + 1) == 3 * (g + 1) - Paddings(c[..4 * (g + 1)])
  {
    LengthPlain(c, g);
    LengthStep(c, g);
  }

  /** Nothing but padding: every group takes one byte and more away. */
  lemma OnlyPadding()
    ensures Decode([PAD, PAD, PAD, PAD], [0]).0 == -1
  {
    hide BitsOf, Push, Gather, Read;
    var s := [PAD, PAD, PAD, PAD];
    GatherFour(s, 0, PAD, PAD, PAD, PAD);
    assert Gather(s, 0, 0, 0, 0).pad == 4;
    assert DecodeFrom(s, 4, [0], -1, 4) == (-1, [0]);
  }

  // ----- the loops -----------------------------------------------------------

  /** `word` shifted left by a byte, with the next byte of the buffer or nothing. */
  function Take(word: bv32, b: seq<byte>, i: nat): bv32 { if i < |b| then Join(word, b[i]) else word << 8 }

  lemma TakeOne(word: bv32, b: seq<byte>, i: nat)
    ensures Take(word, b, i) == Join(word, At(b, i))
  {
    assert Join(word, 0) == word << 8;
  }

  lemma TakeWord(b: seq<byte>, i: nat)
    requires i < |b|
    ensures Take(Take(b[i] as bv32, b, i + 1), b, i + 2) == GroupWord(b, i)
  {
    hide Take, Join;
    TakeOne(b[i] as bv32, b, i + 1);
    TakeOne(Take(b[i] as bv32, b, i + 1), b, i + 2);
  }

  /** The character at place `k` of a group. */
  function QuadAt(x: bv32, pad: nat, k: nat): byte {
    if k >= 4 || (pad > 0 && k >= 4 - pad) then PAD else CodeOf(Sextet(Down(x, 3 - k)))
  }

  lemma QuadIs(x: bv32, pad: nat, q: seq<byte>)
    requires pad <= 2 && |q| == 4 && forall k: nat :: k < 4 ==> q[k] == QuadAt(x, pad, k)
    ensures q == Quad(x, pad)
  {
    hide CodeOf, Sextet, Shift6;
    assert Down(x, 0) == x;
    assert q[0] == QuadAt(x, pad, 0) && q[1] == QuadAt(x, pad, 1) && q[2] == QuadAt(x, pad, 2) &&
        q[3] == QuadAt(x, pad, 3);
  }

  /** The loop of EncodeBase64 that fills in four characters, the last one first. */
  method PutQuad(out: array<byte>, p: nat, word: bv32, pad: nat)
    requires p + 4 <= out.Length && pad <= 2
    modifies out
    ensures out[..p] == old(out[..p]) && out[p..p + 4] == Quad(word, pad)
  {
    hide CodeOf, Sextet, Shift6;
    var top, w := p + 4, word;
    while top != p
      invariant p <= top <= p + 4 && w == Down(word, p + 4 - top) && out[..p] == old(out[..p])
      invariant forall k: nat {:trigger QuadAt(word, pad, k)} :: top - p <= k < 4 ==> out[p + k] == QuadAt(word, pad, k)
      decreases top - p
    {
      top := top - 1;
      if pad == 0 || top < p + 4 - pad {
        out[top] := CodeOf(Sextet(w));
      } else {
        out[top] := PAD;
      }
      w := Shift6(w);
      assert out[p + (top - p)] == QuadAt(word, pad, top - p);
    }
    QuadIs(word, pad, out[p..p + 4]);
  }

  /** One round of EncodeBase64. */
  method PutGroup(out: array<byte>, p: nat, b: seq<byte>, i: nat) returns (next: nat, pad: nat)
    requires i < |b| && p + |EncodeFrom(b, i, p)| <= out.Length
    modifies out
    ensures pad == PadOf(b, i) && p <= next <= out.Length && next + |EncodeFrom(b, i + 3, next)| <= out.Length
    ensures out[..next] + EncodeFrom(b, i + 3, next) == old(out[..p]) + EncodeFrom(b, i, p)
  {
    hide Quad, GroupWord, Take;
    var word := b[i] as bv32;
    pad := PadOf(b, i);
    word := Take(word, b, i + 1);
    word := Take(word, b, i + 2);
    TakeWord(b, i);
    var line := (p + 4) % 66 == 0 || pad > 0;
    GroupFits(b, i, p);
    PutQuad(out, p, word, pad);
    next := p + 4;
    ghost var text := old(out[..p]);
    assert out[..p] == text;
    if line {
      out[next], out[next + 1] := CR, LF;
      next := next + 2;
    }
    assert out[..next][..p] == text && out[..next][p..p + 4] == Quad(word, pad);
    Regroup(out[..next], text, Quad(word, pad), line, EncodeFrom(b, i + 3, next));
  }

  /** EncodeBase64: every character lands inside the estimated size. */
  method EncodeBase64(b: seq<byte>) returns (r: seq<byte>)
    ensures r == Encode(b)
  {
    hide EncodeFrom, Estimate, OffsetAt, TotalLength;
    EncodeLength(b, 0);
    EstimateEnough(|b|);
    OffsetZero();
    var out := new byte[Estimate(|b|)];
    out[0], out[1] := CR, LF;
    var p, i, pad: nat := 2, 0, 0;
    while i < |b|
      invariant p <= out.Length && p + |EncodeFrom(b, i, p)| <= out.Length
      invariant Encode(b) == out[..p] + EncodeFrom(b, i, p)
      decreases |b| - i
    {
      p, pad := PutGroup(out, p, b, i);
      i := i + 3;
    }
    NoMore(b, i, p);
    r := out[..p];
  }

  lemma NoMore(b: seq<byte>, i: nat, p: nat)
    requires i >= |b|
    ensures EncodeFrom(b, i, p) == []
  {
  }

  lemma OffsetZero()
    ensures OffsetAt(0) == 2
  {
  }

  lemma GroupFits(b: seq<byte>, i: nat, p: nat)
    requires i < |b|
    ensures |EncodeFrom(b, i, p)| >= 4 + (if (p + 4) % 66 == 0 || PadOf(b, i) > 0 then 2 else 0)
  {
    hide Quad, GroupWord;
  }

  lemma Regroup(out: seq<byte>, text: seq<byte>, q: seq<byte>, line: bool, rest: seq<byte>)
    requires |q| == 4 && |out| == |text| + 4 + (if line then 2 else 0)
    requires out[..|text|] == text && out[|text|..|text| + 4] == q &&
             (line ==> out[|text| + 4] == CR && out[|text| + 5] == LF)
    ensures text + (q + (if line then [CR, LF] else []) + rest) == out + rest
  {
    assert out == text + q + (if line then [CR, LF] else []);
  }

  /** The loop of DecodeBase64 that reads up to four characters. */
  method ReadQuad(s: seq<byte>, i: nat, pad: nat) returns (g: Gathered)
    requires i <= |s|
    ensures g == Gather(s, i, 0, 0, pad)
  {
    hide BitsOf, Push;
    g := Gathered(i, 0, 0, pad);
    while g.count != 4 && g.next < |s|
      invariant g.next <= |s| && g.count <= 4 && Gather(s, i, 0, 0, pad) == Gather(s, g.next, g.count, g.word, g.pad)
      decreases |s| - g.next
    {
      var c := s[g.next];
      if c == CR || c == LF {
        g := g.(next := g.next + 1);
      } else {
        g := Gathered(g.next + 1, g.count + 1, Push(g.word, BitsOf(c)), if c == PAD then g.pad + 1 else g.pad);
      }
    }
  }

  function Right(x: bv32, j: nat): bv32 { if j == 0 then x else Shift8(Right(x, j - 1)) }

  lemma StoreIs(buf: seq<byte>, off: int, word: bv32, pad: nat, r: seq<byte>)
    requires (pad < 3 ==> 0 <= off && off + 3 - pad <= |buf|) && |r| == |buf|
    requires forall k :: 0 <= k < |r| ==>
               r[k] == if off <= k < off + 3 - pad then LowByte(Right(word, off + 2 - k)) else buf[k]
    ensures r == Store(buf, off, word, pad)
  {
    hide LowByte, Shift8;
    assert Right(word, 0) == word;
    assert Right(word, 1) == Shift8(Right(word, 0));
    assert Right(word, 2) == Shift8(Right(word, 1));
  }

  /** The loop of DecodeBase64 that stores three bytes, the last one first: nothing outside the buffer. */
  method PutBytes(buf: array<byte>, off: int, word: bv32, pad: nat)
    requires pad < 3 ==> 0 <= off && off + 3 - pad <= buf.Length
    modifies buf
    ensures buf[..] == Store(old(buf[..]), off, word, pad)
  {
    hide LowByte, Shift8;
    var top, w := off + 3, word;
    while top != off
      invariant off <= top <= off + 3 && w == Right(word, off + 3 - top)
      invariant forall k :: 0 <= k < buf.Length ==>
        buf[k] == if top <= k < off + 3 - pad then LowByte(Right(word, off + 2 - k)) else old(buf[..])[k]
      decreases top - off
    {
      top := top - 1;
      if pad == 0 || top < off + 3 - pad {
        buf[top] := LowByte(w);
      }
      w := Shift8(w);
    }
    StoreIs(old(buf[..]), off, word, pad, buf[..]);
  }

  /** DecodeBase64. */
  method DecodeBase64(s: seq<byte>, buf: array<byte>) returns (n: int)
    modifies buf
    ensures (n, buf[..]) == Decode(s, old(buf[..]))
  {
    hide Gather, Store;
    if buf.Length == 0 { return (|s| / 4) * 3 + 3; }
    var i, off, pad: nat := 0, 0, 0;
    while i < |s|
      invariant i <= |s| && (pad < 3 ==> 0 <= off)
      invariant DecodeFrom(s, 0, old(buf[..]), 0, 0) == DecodeFrom(s, i, buf[..], off, pad)
      decreases |s| - i
    {
      var g := ReadQuad(s, i, pad);
      if g.count == 4 {
        if off + 3 - g.pad > buf.Length { return 0; }
        PutBytes(buf, off, g.word, g.pad);
        off := off + 3 - g.pad;
      }
      i, pad := g.next, g.pad;
    }
    n := off;
  }
}
