/** Byte sequences: little-endian numbers, buffers made of equal pieces, and slices. */
module ByteSeq {
  import opened Bits

  type U8 = x: int | 0 <= x < 0x100
  type U16 = x: int | 0 <= x < 0x1_0000
  type U32 = x: int | 0 <= x < 0x1_0000_0000

  /** 32-bit wrap-around: `x % 2^32`. */
  function Wrap32(x: int): (r: U32)
    ensures 0 <= x < 0x1_0000_0000 ==> r == x
    decreases if x < 0 then 0x1_0000_0000 - x else x
  {
    if x < 0 then Wrap32(x + 0x1_0000_0000) else if x >= 0x1_0000_0000 then Wrap32(x - 0x1_0000_0000) else x
  }

  lemma {:induction false} Wrap32IsMod(x: int)
    ensures Wrap32(x) == x % 0x1_0000_0000
    decreases if x < 0 then 0x1_0000_0000 - x else x
  {
    if x < 0 {
      Wrap32IsMod(x + 0x1_0000_0000);
      OneTurn(x);
    } else if x >= 0x1_0000_0000 {
      Wrap32IsMod(x - 0x1_0000_0000);
      OneTurn(x - 0x1_0000_0000);
    } else {
      NoTurn(x);
    }
  }

  lemma OneTurn(x: int)
    ensures (x + 0x1_0000_0000) % 0x1_0000_0000 == x % 0x1_0000_0000
  {
  }

  lemma NoTurn(x: U32)
    ensures x % 0x1_0000_0000 == x
  {
  }

  function Min(a: nat, b: nat): nat { if a < b then a else b }

  /** Little-endian numbers. */
  function Le16(data: seq<Byte>, at: nat): (n: nat)
    requires at + 2 <= |data|
    ensures n < 0x1_0000
  {
    data[at] as int + 0x100 * (data[at + 1] as int)
  }

  function Le32(data: seq<Byte>, at: nat): (n: nat)
    requires at + 4 <= |data|
    ensures n < 0x1_0000_0000
  {
    Le16(data, at) + 0x1_0000 * Le16(data, at + 2)
  }

  function Le64(data: seq<Byte>, at: nat): U64
    requires at + 8 <= |data|
  {
    Le32(data, at) + 0x1_0000_0000 * Le32(data, at + 4)
  }

  /** A number in `k` bytes, the least significant first. */
  function Little(n: nat, k: nat): (bytes: seq<Byte>)
    ensures |bytes| == k
    decreases k
  {
    if k == 0 then [] else [n % 256] + Little(n / 256, k - 1)
  }

  /** Byte `i` of a number counts 256 to the power of `i`. */
  lemma {:induction false} LittleByte(n: nat, k: nat, i: nat)
    requires i < k
    ensures Little(n, k)[i] == n / Pow2(8 * i) % 256
    decreases i
  {
    if i > 0 {
      LittleByte(n / 256, k - 1, i - 1);
      NextByte(n, 8 * (i - 1));
    }
  }

  lemma {:induction false} NextByte(n: nat, k: nat)
    ensures n / 256 / Pow2(k) == n / Pow2(k + 8)
    decreases k
  {
    if k == 0 {
      Powers();
      assert Pow2(8) == 256;
    } else {
      NextByte(n / 2, k - 1);
      DivTwice(n / 256, Pow2(k - 1));
      DivTwice(n, Pow2(k + 7));
    }
  }

  /** The bytes of a number are read as that number, as much of it as fits, wherever they lie. */
  lemma {:induction false} Le16Reads(data: seq<Byte>, at: nat, n: nat)
    requires at + 2 <= |data| && data[at..at + 2] == Little(n, 2)
    ensures Le16(data, at) == n % 0x1_0000
  {
    var b := data[at..at + 2];
    assert b[0] == data[at] && b[1] == data[at + 1];
    assert Little(n / 256, 1) == [n / 256 % 256];
    DivModUnique(n, 0x1_0000, n / 256 / 256, n % 256 + 256 * (n / 256 % 256));
  }

  lemma {:induction false} Le32Reads(data: seq<Byte>, at: nat, n: nat)
    requires at + 4 <= |data| && data[at..at + 4] == Little(n, 4)
    ensures Le32(data, at) == n % 0x1_0000_0000
  {
    var b := data[at..at + 4];
    assert b[0] == data[at] && b[1] == data[at + 1] && b[2] == data[at + 2] && b[3] == data[at + 3];
    FourBytes(n);
    FourDigits(n);
  }

  lemma {:induction false} Le64Reads(data: seq<Byte>, at: nat, n: U64)
    requires at + 8 <= |data| && data[at..at + 8] == Little(n, 8)
    ensures Le64(data, at) == n
  {
    var high := n / 0x1_0000_0000;
    EightBytes(n);
    TwoHalves(n, high);
    TwoParts(data[at..at + 8], Little(n, 4), Little(high, 4));
    assert data[at..at + 4] == data[at..at + 8][..4];
    assert data[at + 4..at + 8] == data[at..at + 8][4..];
    Le32Reads(data, at, n);
    Le32Reads(data, at + 4, high);
  }

  lemma TwoHalves(n: U64, high: nat)
    requires high == n / 0x1_0000_0000
    ensures n == n % 0x1_0000_0000 + 0x1_0000_0000 * high && high % 0x1_0000_0000 == high
  {
  }

  lemma TwoParts(whole: seq<Byte>, a: seq<Byte>, b: seq<Byte>)
    requires whole == a + b
    ensures whole[..|a|] == a && whole[|a|..] == b
  {
  }

  lemma {:induction false} FourBytes(n: nat)
    ensures Little(n, 4) == [n % 256, n / 256 % 256, n / 256 / 256 % 256, n / 256 / 256 / 256 % 256]
  {
    assert Little(n / 256 / 256 / 256, 1) == [n / 256 / 256 / 256 % 256];
    assert Little(n / 256 / 256, 2) == [n / 256 / 256 % 256] + Little(n / 256 / 256 / 256, 1);
    assert Little(n / 256, 3) == [n / 256 % 256] + Little(n / 256 / 256, 2);
  }

  lemma {:induction false} FourDigits(n: nat)
    ensures n % 0x1_0000_0000 == n % 256 + 0x100 * (n / 256 % 256) + 0x1_0000 * (n / 256 / 256 % 256)
                                 + 0x100_0000 * (n / 256 / 256 / 256 % 256)
    ensures n / 0x1_0000_0000 == n / 256 / 256 / 256 / 256
  {
    var q1 := n / 256;
    var q2 := q1 / 256;
    var q3 := q2 / 256;
    DivModUnique(n, 0x1_0000_0000, q3 / 256, n % 256 + 0x100 * (q1 % 256) + 0x1_0000 * (q2 % 256) + 0x100_0000 * (q3 % 256));
  }

  /** Eight bytes are the four of the low half and the four of the high half. */
  lemma {:induction false} EightBytes(n: nat)
    ensures Little(n, 8) == Little(n, 4) + Little(n / 0x1_0000_0000, 4)
  {
    FourDigits(n);
    FourBytes(n);
    var r := Little(n / 0x1_0000_0000, 4);
    assert Little(n / 256 / 256 / 256, 5) == [n / 256 / 256 / 256 % 256] + r;
    assert Little(n / 256 / 256, 6) == [n / 256 / 256 % 256] + Little(n / 256 / 256 / 256, 5);
    assert Little(n / 256, 7) == [n / 256 % 256] + Little(n / 256 / 256, 6);
    assert Little(n, 8) == [n % 256] + Little(n / 256, 7);
  }

  /** And the number read is the only one with those bytes. */
  lemma {:induction false} Le32Writes(data: seq<Byte>, at: nat)
    requires at + 4 <= |data|
    ensures Little(Le32(data, at), 4) == data[at..at + 4]
  {
    FourIn(data, at, 0, Le32(data, at));
  }

  lemma {:induction false} Le64Writes(data: seq<Byte>, at: nat)
    requires at + 8 <= |data|
    ensures Little(Le64(data, at), 8) == data[at..at + 8]
  {
    var n := Le64(data, at);
    FourIn(data, at, Le32(data, at + 4), n);
    Le32Writes(data, at + 4);
    EightBytes(n);
    assert data[at..at + 8] == data[at..at + 4] + data[at + 4..at + 8];
  }

  /** Four bytes below a number that has been shifted past them. */
  lemma {:induction false} FourIn(data: seq<Byte>, at: nat, above: nat, n: nat)
    requires at + 4 <= |data| && n == Le32(data, at) + 0x1_0000_0000 * above
    ensures Little(n, 4) == data[at..at + 4] && n / 0x1_0000_0000 == above
  {
    var rest3: nat := data[at + 3] as int + 256 * above;
    var rest2: nat := data[at + 2] as int + 256 * rest3;
    var rest1: nat := data[at + 1] as int + 256 * rest2;
    FourBytes(n);
    FourDigits(n);
    ByteOut(n, data[at], rest1);
    ByteOut(rest1, data[at + 1], rest2);
    ByteOut(rest2, data[at + 2], rest3);
    ByteOut(rest3, data[at + 3], above);
    assert data[at..at + 4] == [data[at], data[at + 1], data[at + 2], data[at + 3]];
  }

  lemma {:induction false} ByteOut(n: nat, low: Byte, rest: nat)
    requires n == low as int + 256 * rest
    ensures n % 256 == low && n / 256 == rest
  {
  }

  /** `i * size`: where piece `i` of a buffer of equal pieces starts. */
  function Offset(i: nat, size: nat): nat {
    if i == 0 then 0 else Offset(i - 1, size) + size
  }

  lemma {:induction false} OffsetIs(i: nat, size: nat)
    ensures Offset(i, size) == i * size
  {
    if i > 0 {
      OffsetIs(i - 1, size);
      assert i * size == (i - 1) * size + size;
    }
  }

  lemma {:induction false} OffsetMono(i: nat, j: nat, size: nat)
    requires i <= j
    ensures Offset(i, size) <= Offset(j, size)
    decreases j
  {
    if i < j {
      OffsetMono(i, j - 1, size);
    }
  }

  lemma {:induction false} OffsetAdd(a: nat, b: nat, size: nat)
    ensures Offset(a + b, size) == Offset(a, size) + Offset(b, size)
  {
    if b > 0 {
      OffsetAdd(a, b - 1, size);
    }
  }

  /** Pieces one after the other. */
  function Join(pieces: seq<seq<Byte>>): seq<Byte> {
    if pieces == [] then [] else Join(pieces[..|pieces| - 1]) + pieces[|pieces| - 1]
  }

  ghost predicate Uniform(pieces: seq<seq<Byte>>, size: nat) {
    forall k :: 0 <= k < |pieces| ==> |pieces[k]| == size
  }

  lemma {:induction false} JoinAppend(pieces: seq<seq<Byte>>, piece: seq<Byte>)
    ensures Join(pieces + [piece]) == Join(pieces) + piece
  {
    assert (pieces + [piece])[..|pieces|] == pieces;
  }

  lemma {:induction false} JoinLength(pieces: seq<seq<Byte>>, size: nat)
    requires Uniform(pieces, size)
    ensures |Join(pieces)| == Offset(|pieces|, size)
  {
    if pieces != [] {
      JoinLength(pieces[..|pieces| - 1], size);
    }
  }

  /** Piece `k` starts at `k * size`. */
  lemma {:induction false} JoinAt(pieces: seq<seq<Byte>>, size: nat, k: nat, j: nat)
    requires Uniform(pieces, size) && k < |pieces| && j < size
    ensures Offset(k, size) + j < |Join(pieces)|
    ensures Join(pieces)[Offset(k, size) + j] == pieces[k][j]
    decreases |pieces|
  {
    var n := |pieces| - 1;
    JoinLength(pieces, size);
    JoinLength(pieces[..n], size);
    if k < n {
      JoinAt(pieces[..n], size, k, j);
    }
  }

  /** A range inside one piece. */
  lemma {:induction false} JoinRange(pieces: seq<seq<Byte>>, size: nat, k: nat, at: nat, n: nat)
    requires Uniform(pieces, size) && k < |pieces| && at + n <= size
    ensures Offset(k, size) + at + n <= |Join(pieces)|
    ensures Join(pieces)[Offset(k, size) + at..Offset(k, size) + at + n] == pieces[k][at..at + n]
  {
    JoinLength(pieces, size);
    OffsetMono(k + 1, |pieces|, size);
    var a, b := Join(pieces)[Offset(k, size) + at..Offset(k, size) + at + n], pieces[k][at..at + n];
    assert |a| == |b|;
    forall j | 0 <= j < n
      ensures a[j] == b[j]
    {
      JoinAt(pieces, size, k, at + j);
    }
  }

  /** `part` is what the bytes from `at` on begin with. */
  ghost predicate LiesIn(bytes: seq<Byte>, at: nat, part: seq<Byte>) {
    at + |part| <= |bytes| && bytes[at..at + |part|] == part
  }

  /** Nothing from `at` on changed. */
  ghost predicate TailKept(before: seq<Byte>, after: seq<Byte>, at: nat) {
    at <= |before| == |after| && before[at..] == after[at..]
  }

  lemma {:induction false} TailKeptTrans(a: seq<Byte>, b: seq<Byte>, c: seq<Byte>, i: nat, j: nat)
    requires TailKept(a, b, i) && TailKept(b, c, j) && i <= j
    ensures TailKept(a, c, j)
  {
    assert a[j..] == a[i..][j - i..];
    assert b[j..] == b[i..][j - i..];
  }

  lemma {:induction false} SubSlice(s: seq<Byte>, i: nat, j: nat, at: nat, n: nat)
    requires i + at + n <= j <= |s|
    ensures s[i..j][at..at + n] == s[i + at..i + at + n]
  {
    var a, b := s[i..j][at..at + n], s[i + at..i + at + n];
    assert |a| == |b|;
    assert forall k :: 0 <= k < n ==> a[k] == b[k];
  }

  /** A buffer that holds `data` and then receives the start of another piece. */
  lemma PieceAppended(data: seq<Byte>, piece: seq<Byte>, before: seq<Byte>, after: seq<Byte>, n: nat)
    requires n <= |piece| && |data| + n <= |before| && before[..|data|] == data
    requires after == before[..|data|] + piece[..n] + before[|data| + n..]
    ensures after[..|data| + n] == (data + piece)[..|data| + n]
    ensures TailKept(before, after, |data| + n)
  {
  }

  /** memcpy(buffer, content + from, n) */
  method CopyOut(content: array<Byte>, from: nat, n: nat, buffer: array<Byte>)
    requires from + n <= content.Length && n <= buffer.Length && content != buffer
    modifies buffer
    ensures buffer[..n] == content[..][from..from + n] && buffer[n..] == old(buffer[n..])
  {
    forall k | 0 <= k < n {
      buffer[k] := content[from + k];
    }
  }
}
