/** Reading codes from the sub-blocks of GIF image data (GIF89a, Appendix F). */
module GifBits {
  import opened Words
  import opened Arithmetic

  type Byte = b: nat | b < 256

  // ---------------------------------------------------------- bits and values

  /** The n low bits of v, least significant first. */
  function BitsOf(v: nat, n: nat): (b: seq<bool>)
    ensures |b| == n
  {
    if n == 0 then [] else [v % 2 == 1] + BitsOf(v / 2, n - 1)
  }

  function ValueOf(bits: seq<bool>): nat {
    if bits == [] then 0 else (if bits[0] then 1 else 0) + 2 * ValueOf(bits[1..])
  }

  function BitsOfBytes(bytes: seq<Byte>): (b: seq<bool>)
    ensures |b| == 8 * |bytes|
  {
    if bytes == [] then [] else BitsOf(bytes[0], 8) + BitsOfBytes(bytes[1..])
  }

  lemma {:induction false} ValueBound(bits: seq<bool>)
    ensures ValueOf(bits) < Pow2(|bits|)
  {
    if bits != [] {
      ValueBound(bits[1..]);
    }
  }

  lemma {:induction false} ValueAppend(a: seq<bool>, b: seq<bool>)
    ensures ValueOf(a + b) == ValueOf(a) + ShiftLeft(ValueOf(b), |a|)
  {
    if a == [] {
      assert a + b == b;
    } else {
      assert (a + b)[1..] == a[1..] + b;
      ValueAppend(a[1..], b);
    }
  }

  lemma {:induction false} ValueOfLowBits(v: nat, n: nat)
    ensures ValueOf(BitsOf(v, n)) == v % Pow2(n)
  {
    if n > 0 {
      ValueOfLowBits(v / 2, n - 1);
      HalfFirst(v, Pow2(n - 1));
    }
  }

  lemma {:induction false} BitsDrop(v: nat, n: nat, from: nat)
    requires from <= n
    ensures BitsOf(v, n)[from..] == BitsOf(ShiftRight(v, from), n - from)
  {
    if from > 0 {
      assert BitsOf(v, n)[from..] == BitsOf(v / 2, n - 1)[from - 1..];
      BitsDrop(v / 2, n - 1, from - 1);
    }
  }

  lemma {:induction false} BitsTake(v: nat, n: nat, m: nat)
    requires m <= n
    ensures BitsOf(v, n)[..m] == BitsOf(v, m)
  {
    if m > 0 {
      assert BitsOf(v, n)[1..][..m - 1] == BitsOf(v / 2, n - 1)[..m - 1];
      BitsTake(v / 2, n - 1, m - 1);
    }
  }

  /** A shifted and masked byte is the value of a slice of its bits. */
  lemma {:induction false} FieldValue(v: nat, from: nat, n: nat)
    requires from + n <= 8
    ensures ShiftRight(v, from) % Pow2(n) == ValueOf(BitsOf(v, 8)[from..][..n])
  {
    BitsDrop(v, 8, from);
    BitsTake(ShiftRight(v, from), 8 - from, n);
    ValueOfLowBits(ShiftRight(v, from), n);
  }

  lemma {:induction false} ShiftBound(v: nat, m: nat, n: nat)
    requires v < Pow2(m + n)
    ensures ShiftRight(v, n) < Pow2(m)
  {
    if n > 0 {
      ShiftBound(v / 2, m, n - 1);
    }
  }

  /** What is left of a byte keeps its value under a wider code mask. */
  lemma {:induction false} TopValue(v: Byte, left: nat, width: nat)
    requires left < 8 && left <= width
    ensures ShiftRight(v, 8 - left) % Pow2(width) == ValueOf(BitsOf(v, 8)[8 - left..])
  {
    hide BitsOf, ValueOf, ShiftRight, Pow2;
    FieldValue(v, 8 - left, left);
    assert BitsOf(v, 8)[8 - left..][..left] == BitsOf(v, 8)[8 - left..];
    Pow2Values();
    ShiftBound(v, left, 8 - left);
    Pow2Monotone(left, width);
    SmallRest(ShiftRight(v, 8 - left), Pow2(left));
    SmallRest(ShiftRight(v, 8 - left), Pow2(width));
  }

  lemma {:induction false} SmallRest(x: nat, p: nat)
    requires x < p
    ensures x % p == x
  {
  }

  lemma {:induction false} OrWithZero(y: nat, n: nat)
    requires y < Pow2(n)
    ensures Bitwise(Or, 0, y, n) == y
  {
    if n > 0 {
      OrWithZero(y / 2, n - 1);
    }
  }

  /** Or-ing bits in above the ones already there adds them. */
  lemma {:induction false} OrAbove(x: nat, y: nat, h: nat, n: nat)
    requires x < Pow2(h) && ShiftLeft(y, h) < Pow2(n)
    ensures h <= n ==> Bitwise(Or, x, ShiftLeft(y, h), n) == x + ShiftLeft(y, h)
  {
    if h == 0 {
      OrWithZero(y, n);
    } else if h <= n {
      OrAbove(x / 2, y, h - 1, n - 1);
    }
  }

  // ------------------------------------------------------------- sub-blocks

  /** The bytes of the complete sub-blocks at the front of the stream. */
  function Payload(data: seq<Byte>): seq<Byte> {
    if data == [] || data[0] == 0 || |data| < 1 + data[0] as nat then []
    else data[1..1 + data[0] as nat] + Payload(data[1 + data[0] as nat..])
  }

  /** The sub-blocks end with an empty one, not with the end of the stream. */
  predicate Terminated(data: seq<Byte>) {
    data != [] && (data[0] == 0 || (1 + data[0] as nat <= |data| && Terminated(data[1 + data[0] as nat..])))
  }

  /** A read either works, meets the block terminator, or runs off the stream. */
  datatype ReadResult = Ok | EndOfBlocks | StreamFailure

  lemma {:induction false} BytesAppend(a: seq<Byte>, b: seq<Byte>)
    ensures BitsOfBytes(a + b) == BitsOfBytes(a) + BitsOfBytes(b)
  {
    if a == [] {
      assert a + b == b;
    } else {
      assert (a + b)[1..] == a[1..] + b;
      BytesAppend(a[1..], b);
    }
  }

  /** One turn of the reader: the low bits of a byte go above the bits so far. */
  lemma {:induction false} TakeBits(pending: seq<bool>, have: nat, byte: Byte, rest: seq<bool>, take: nat, code: nat)
    requires have <= |pending| && take <= 8 && have + take <= 16
    requires pending[have..] == BitsOf(byte, 8) + rest && code == ValueOf(pending[..have])
    ensures have + take <= |pending|
    ensures Bitwise(Or, code, ShiftLeft(byte % Pow2(take), have), 16) == ValueOf(pending[..have + take])
    ensures BitsOf(byte, 8)[take..] + rest == pending[have + take..]
  {
    hide BitsOf, ValueOf, Bitwise, ShiftLeft, Pow2;
    var field := BitsOf(byte, 8)[..take];
    assert pending == pending[..have] + pending[have..];
    assert pending[..have + take] == pending[..have] + field;
    assert pending[have + take..] == pending[have..][take..];
    FieldIsLow(byte, take);
    ValueAppend(pending[..have], field);
    ValueBound(pending[..have]);
    ValueBound(pending[..have + take]);
    Pow2Monotone(have + take, 16);
    OrAbove(code, byte % Pow2(take), have, 16);
  }

  lemma {:induction false} FieldIsLow(byte: Byte, take: nat)
    requires take <= 8
    ensures byte % Pow2(take) == ValueOf(BitsOf(byte, 8)[..take])
  {
    BitsTake(byte, 8, take);
    ValueOfLowBits(byte, take);
  }

  /** Opening the next sub-block loses no payload. */
  lemma {:induction false} NextBlock(stream: seq<Byte>)
    requires stream != [] && stream[0] > 0 && 1 + stream[0] as nat <= |stream|
    ensures var n: nat := stream[0];
      BitsOfBytes(Payload(stream)) == BitsOfBytes(stream[1..1 + n]) + BitsOfBytes(Payload(stream[1 + n..]))
      && Terminated(stream) == Terminated(stream[1 + n..])
  {
    hide BitsOfBytes;
    var n: nat := stream[0];
    BytesAppend(stream[1..1 + n], Payload(stream[1 + n..]));
  }

  lemma {:induction false} NoBlock(stream: seq<Byte>)
    requires stream == [] || stream[0] == 0 || |stream| < 1 + stream[0] as nat
    ensures BitsOfBytes(Payload(stream)) == []
    ensures Terminated(stream) <==> stream != [] && stream[0] == 0
  {
  }

  /** A code that lies within what is left of the last byte. */
  lemma {:induction false} WithinByte(byte: seq<bool>, left: nat, rest: seq<bool>, width: nat)
    requires |byte| == 8 && width <= left < 8
    ensures (byte[8 - left..] + rest)[..width] == byte[8 - left..][..width]
    ensures (byte[8 - left..] + rest)[width..] == byte[8 - (left - width)..] + rest
    ensures width <= |byte[8 - left..] + rest|
  {
    assert (byte[8 - left..] + rest)[width..] == byte[8 - left..][width..] + rest;
  }

  lemma {:induction false} PastByte(byte: seq<bool>, left: nat, rest: seq<bool>)
    requires |byte| == 8 && left < 8
    ensures (byte[8 - left..] + rest)[..left] == byte[8 - left..]
    ensures (byte[8 - left..] + rest)[left..] == rest == byte[8..] + rest
    ensures left <= |byte[8 - left..] + rest|
  {
  }

  lemma {:induction false} NoResidue(byte: seq<bool>, rest: seq<bool>)
    requires |byte| == 8
    ensures byte[8..] + rest == rest
  {
  }

  lemma {:induction false} NoBytes()
    ensures BitsOfBytes([]) == []
  {
  }

  // -------------------------------------------------- sub-blocks, written

  /** Chunks of 1 to 255 bytes as sub-blocks, each behind its length. */
  function Blocks(chunks: seq<seq<Byte>>): seq<Byte>
    requires forall c | c in chunks :: 0 < |c| < 256
  {
    if chunks == [] then []
    else
      var c := chunks[0];
      assert c in chunks;
      [|c|] + c + Blocks(chunks[1..])
  }

  function Concat(chunks: seq<seq<Byte>>): seq<Byte> {
    if chunks == [] then [] else chunks[0] + Concat(chunks[1..])
  }

  /** The payload of sub-blocks is their contents, wherever it was cut, up to an empty sub-block
      or one the stream does not hold in full. */
  lemma {:induction false} PayloadOfBlocks(chunks: seq<seq<Byte>>, rest: seq<Byte>)
    requires forall c | c in chunks :: 0 < |c| < 256
    requires rest == [] || rest[0] == 0 || |rest| < 1 + rest[0] as nat
    ensures Payload(Blocks(chunks) + rest) == Concat(chunks)
    ensures Terminated(Blocks(chunks) + rest) <==> rest != [] && rest[0] == 0
  {
    if chunks == [] {
      assert Blocks(chunks) + rest == rest;
    } else {
      var c, more := chunks[0], Blocks(chunks[1..]) + rest;
      assert c in chunks;
      var data := [|c| as Byte] + c + more;
      assert Blocks(chunks) + rest == data;
      OneBlock(c, more);
      PayloadOfBlocks(chunks[1..], rest);
    }
  }

  lemma {:induction false} OneBlock(c: seq<Byte>, more: seq<Byte>)
    requires 0 < |c| < 256
    ensures Payload([|c| as Byte] + c + more) == c + Payload(more)
    ensures Terminated([|c| as Byte] + c + more) == Terminated(more)
  {
    var data := [|c| as Byte] + c + more;
    assert data[1..1 + |c|] == c && data[1 + |c|..] == more;
  }

  lemma {:induction false} FirstByte(bytes: seq<Byte>, rest: seq<bool>)
    requires bytes != []
    ensures BitsOfBytes(bytes) + rest == BitsOf(bytes[0], 8) + (BitsOfBytes(bytes[1..]) + rest)
  {
  }

  /** The reader's variables, passed around by reference in the source. */
  class BitReader {
    var stream: seq<Byte>   // what has not been read yet
    var buf: seq<Byte>      // the current sub-block
    var bidx: nat
    var byteleft: nat
    var lbyte: Byte
    var bitleft: nat

    ghost predicate Valid()
      reads this
    {
      bitleft < 8 && bidx + byteleft == |buf|
    }

    /** The bits of the bytes not yet taken, wherever the sub-block boundaries fall. */
    ghost function Bytes(): seq<bool>
      requires Valid()
      reads this
    {
      BitsOfBytes(buf[bidx..]) + BitsOfBytes(Payload(stream))
    }

    /** All bits still to come. */
    ghost function Pending(): seq<bool>
      requires Valid()
      reads this
    {
      BitsOf(lbyte, 8)[8 - bitleft..] + Bytes()
    }

    constructor (data: seq<Byte>)
      ensures Valid() && Pending() == BitsOfBytes(Payload(data)) && stream == data
    {
      stream, buf, bidx, byteleft, lbyte, bitleft := data, [], 0, 0, 0, 0;
    }

    /** Reads the next sub-block into the empty buffer. */
    method Refill() returns (r: ReadResult)
      requires Valid() && byteleft == 0
      modifies this`stream, this`buf, this`byteleft, this`bidx
      ensures Valid()
      ensures r == Ok ==> byteleft > 0 && Bytes() == old(Bytes()) && Terminated(stream) == old(Terminated(stream))
      ensures r != Ok ==> old(Bytes()) == []
      ensures r == EndOfBlocks ==> old(Terminated(stream))
      ensures r == StreamFailure ==> !old(Terminated(stream))
    {
      hide BitsOf, BitsOfBytes, Payload, Terminated;
      assert buf[bidx..] == [];
      NoBytes();
      if stream == [] {
        NoBlock(stream);
        return StreamFailure;
      }
      var n: nat := stream[0];
      if n == 0 {
        NoBlock(stream);
        return EndOfBlocks;
      }
      if |stream| < 1 + n {
        NoBlock(stream);
        return StreamFailure;
      }
      NextBlock(stream);
      buf := stream[1..1 + n];
      stream := stream[1 + n..];
      byteleft := n;
      bidx := 0;
      assert buf[bidx..] == buf;
      r := Ok;
    }

    /** Takes one byte, from the next sub-block if need be. */
    method NextByte() returns (r: ReadResult)
      requires Valid() && bitleft == 0
      modifies this
      ensures Valid() && bitleft == 0
      ensures r == Ok ==> old(Pending()) == BitsOf(lbyte, 8) + Pending()
      ensures r == Ok ==> Terminated(stream) == old(Terminated(stream))
      ensures r != Ok ==> old(Pending()) == []
      ensures r == EndOfBlocks ==> old(Terminated(stream))
      ensures r == StreamFailure ==> !old(Terminated(stream))
    {
      hide BitsOf, BitsOfBytes, Payload, Terminated;
      NoResidue(BitsOf(lbyte, 8), Bytes());
      if byteleft == 0 {
        r := Refill();
        if r != Ok {
          return;
        }
      }
      FirstByte(buf[bidx..], BitsOfBytes(Payload(stream)));
      assert buf[bidx..][1..] == buf[bidx + 1..];
      byteleft := byteleft - 1;
      lbyte := buf[bidx];
      bidx := bidx + 1;
      NoResidue(BitsOf(lbyte, 8), Bytes());
      r := Ok;
    }

    /** The loop of getlogbyte: have bits are in code, want more are fetched. */
    method FetchBits(width: nat, bits: nat, code: nat, ghost pending: seq<bool>) returns (r: ReadResult, curcode: nat)
      requires Valid() && bitleft == 0 && bits <= width <= 16 && bits <= |pending|
      requires Pending() == pending[bits..] && code == ValueOf(pending[..bits])
      modifies this
      ensures Valid()
      ensures r == Ok <==> width <= |pending|
      ensures r == Ok ==> curcode == ValueOf(pending[..width]) && Pending() == pending[width..]
      ensures r == Ok ==> Terminated(stream) == old(Terminated(stream))
      ensures r == EndOfBlocks ==> old(Terminated(stream))
      ensures r == StreamFailure ==> !old(Terminated(stream))
    {
      hide BitsOf, BitsOfBytes, Payload, ValueOf, Bitwise, ShiftLeft, ShiftRight, Terminated, Pow2;
      var want: nat, have := width - bits, bits;
      curcode := code;
      while want > 0
        invariant Valid() && have + want == width && have <= |pending|
        invariant want > 0 ==> bitleft == 0
        invariant Pending() == pending[have..]
        invariant curcode == ValueOf(pending[..have])
        invariant Terminated(stream) == old(Terminated(stream))
      {
        r := NextByte();
        if r != Ok {
          assert pending[have..] == [];
          return r, curcode;
        }
        assert BitsOf(lbyte, 8)[8..] == [];
        var take := if want > 8 then 8 else want;
        TakeBits(pending, have, lbyte, Pending(), take, curcode);
        curcode := Bitwise(Or, curcode, ShiftLeft(lbyte % Pow2(take), have), 16);
        bitleft := 8 - take;
        have := have + take;
        want := want - take;
      }
      r := Ok;
    }

    /** getlogbyte: the next width bits, least significant first. */
    method GetCode(width: nat) returns (r: ReadResult, curcode: nat)
      requires Valid() && 1 <= width <= 16
      modifies this
      ensures Valid()
      ensures r == Ok <==> width <= |old(Pending())|
      ensures r == Ok ==> curcode == ValueOf(old(Pending())[..width]) && Pending() == old(Pending())[width..]
      ensures r == Ok ==> Terminated(stream) == old(Terminated(stream))
      ensures r == EndOfBlocks ==> old(Terminated(stream))
      ensures r == StreamFailure ==> !old(Terminated(stream))
    {
      hide BitsOf, BitsOfBytes, Payload, ValueOf, Bitwise, ShiftLeft, ShiftRight, Terminated, Pow2;
      ghost var pending := Pending();
      ghost var rest := Bytes();
      curcode := ShiftRight(lbyte, 8 - bitleft) % Pow2(width);
      if width <= bitleft {
        FieldValue(lbyte, 8 - bitleft, width);
        WithinByte(BitsOf(lbyte, 8), bitleft, rest, width);
        bitleft := bitleft - width;
        return Ok, curcode;
      }
      var have := bitleft;
      TopValue(lbyte, have, width);
      PastByte(BitsOf(lbyte, 8), have, rest);
      bitleft := 0;
      r, curcode := FetchBits(width, have, curcode, pending);
    }
  }
}
