/** Decompressing GIF image data (GIF89a, Appendix F). */
module Lzw {
  import opened Words
  import opened GifBits

  const TABLE_SIZE: nat := 4096
  const NO_CODE: nat := 0xffff

  function Clr(ics: nat): nat { Pow2(ics) }
  function Eof(ics: nat): nat { Pow2(ics) + 1 }

  // ------------------------------------------------------ abstract decoder

  /** Where decoding ended, and what was drawn until then. */
  datatype Stop = Complete | OutOfCodes | Rejected | BadCode | TableFull
  datatype Decoded = Decoded(pixels: seq<Byte>, stop: Stop)

  /** Before the first clear code, right after one, or with a dictionary. */
  datatype State = Start | Cleared | Going(dict: seq<seq<Byte>>, prev: seq<Byte>)

  datatype Turn = Fail(stop: Stop) | Emit(s: seq<Byte>, next: State)

  predicate InRange(ics: nat) { 1 <= ics <= 8 }

  lemma {:induction false} ClrBounds(ics: nat)
    requires InRange(ics)
    ensures 2 <= Clr(ics) <= 256 && Eof(ics) < Pow2(ics + 1)
  {
    assert Pow2(1) == 2 && Pow2(2) == 4 && Pow2(4) == 16 && Pow2(8) == 256;
    assert Pow2(3) == 8 && Pow2(5) == 32 && Pow2(6) == 64 && Pow2(7) == 128;
  }

  /** The string of a code that is a colour or in the dictionary. */
  predicate Known(ics: nat, dict: seq<seq<Byte>>, code: nat) {
    code < Clr(ics) || Eof(ics) < code < Eof(ics) + 1 + |dict|
  }

  function StringOf(ics: nat, dict: seq<seq<Byte>>, code: nat): seq<Byte>
    requires InRange(ics) && Known(ics, dict, code)
  {
    ClrBounds(ics);
    if code < Clr(ics) then [code] else dict[code - Eof(ics) - 1]
  }

  predicate NonEmpty(st: State) {
    st.Going? ==> st.prev != [] && forall k | 0 <= k < |st.dict| :: st.dict[k] != []
  }

  /** A stream that does not open with a clear code starts from an empty dictionary, and the
      last string is colour 0. */
  function DictOf(st: State): seq<seq<Byte>> {
    if st.Going? then st.dict else []
  }

  function PrevOf(st: State): (prev: seq<Byte>)
    requires NonEmpty(st)
    ensures prev != []
  {
    if st.Going? then st.prev else [0]
  }

  /** The next free code; right after a clear code the code before the first free one. */
  function FreeOf(ics: nat, st: State): nat {
    if st.Cleared? then Eof(ics) else Eof(ics) + 1 + |DictOf(st)|
  }

  /** One code that is neither the clear nor the end code. */
  function TurnOf(ics: nat, st: State, code: nat): (t: Turn)
    requires InRange(ics) && NonEmpty(st) && code != Clr(ics) && code != Eof(ics)
    ensures t.Emit? ==> t.s != [] && NonEmpty(t.next) && t.next.Going? && FreeOf(ics, t.next) == FreeOf(ics, st) + 1
    ensures t.Fail? ==> t.stop != Complete && t.stop != OutOfCodes
  {
    ClrBounds(ics);
    if st.Cleared? then
      if code < Clr(ics) then Emit([code], Going([], [code])) else Fail(Rejected)
    else
      var dict, prev, free := DictOf(st), PrevOf(st), FreeOf(ics, st);
      if free >= TABLE_SIZE then Fail(TableFull)
      else if code > free then Fail(BadCode)
      else
        var s := if code == free then prev + [prev[0]] else StringOf(ics, dict, code);
        Emit(s, Going(dict + [prev + [s[0]]], s))
  }

  /** The least width from w on, up to 12, in which n can be written. */
  function FitWidth(w: nat, n: nat): nat
    decreases 12 - w
  {
    if w >= 12 || n < Pow2(w) then w else FitWidth(w + 1, n)
  }

  /** The codes are as wide as the next free code needs. */
  function WidthOf(ics: nat, st: State): nat {
    if st.Going? then FitWidth(ics + 1, Eof(ics) + 1 + |st.dict|) else ics + 1
  }

  function Decode(ics: nat, bits: seq<bool>, st: State): Decoded
    requires InRange(ics) && NonEmpty(st)
    decreases |bits|, 0
  {
    var w := WidthOf(ics, st);
    FitWidthBounds(ics + 1, Eof(ics) + 1 + (if st.Going? then |st.dict| else 0));
    if |bits| < w then Decoded([], OutOfCodes)
    else Handle(ics, ValueOf(bits[..w]), bits[w..], st)
  }

  function Handle(ics: nat, code: nat, rest: seq<bool>, st: State): Decoded
    requires InRange(ics) && NonEmpty(st)
    decreases |rest|, 1
  {
    if code == Eof(ics) then Decoded([], Complete)
    else if code == Clr(ics) then Decode(ics, rest, Cleared)
    else
      var t := TurnOf(ics, st, code);
      if t.Fail? then Decoded([], t.stop)
      else
        var d := Decode(ics, rest, t.next);
        Decoded(t.s + d.pixels, d.stop)
  }

  lemma {:induction false} FitWidthBounds(w: nat, n: nat)
    requires w <= 12
    ensures w <= FitWidth(w, n) <= 12
    decreases 12 - w
  {
    if w < 12 && n >= Pow2(w) {
      FitWidthBounds(w + 1, n);
    }
  }

  /** One more code makes the width grow by at most one bit. */
  lemma {:induction false} WidthGrows(w: nat, n: nat)
    requires w <= 12
    ensures var f := FitWidth(w, n);
      FitWidth(w, n + 1) == if n + 1 > Pow2(f) - 1 && f < 12 then f + 1 else f
    decreases 12 - w
  {
    if w < 12 && n >= Pow2(w) {
      WidthGrows(w + 1, n);
    }
  }

  /** Decoding goes on with the next code, which fits the tables. */
  lemma {:induction false} CodeFits(ics: nat, bits: seq<bool>, st: State)
    requires InRange(ics) && NonEmpty(st)
    ensures 1 <= WidthOf(ics, st) <= 12
    ensures |bits| < WidthOf(ics, st) ==> Decode(ics, bits, st) == Decoded([], OutOfCodes)
    ensures WidthOf(ics, st) <= |bits| ==>
      Decode(ics, bits, st) == Handle(ics, ValueOf(bits[..WidthOf(ics, st)]), bits[WidthOf(ics, st)..], st)
      && ValueOf(bits[..WidthOf(ics, st)]) < TABLE_SIZE
  {
    var w := WidthOf(ics, st);
    FitWidthBounds(ics + 1, Eof(ics) + 1 + (if st.Going? then |st.dict| else 0));
    if w <= |bits| {
      ValueBound(bits[..w]);
      Pow2Values();
      Pow2Monotone(w, 12);
    }
  }

  lemma {:induction false} StartIsNonEmpty(ics: nat)
    ensures NonEmpty(Start) && FreeOf(ics, Start) == Eof(ics) + 1 && WidthOf(ics, Start) == ics + 1
  {
  }

  lemma {:induction false} HandleEnd(ics: nat, rest: seq<bool>, st: State)
    requires InRange(ics) && NonEmpty(st)
    ensures Handle(ics, Eof(ics), rest, st) == Decoded([], Complete)
  {
  }

  lemma {:induction false} HandleCases(ics: nat, code: nat, rest: seq<bool>, st: State)
    requires InRange(ics) && NonEmpty(st) && code != Eof(ics)
    ensures NonEmpty(Cleared)
    ensures code == Clr(ics) ==> Handle(ics, code, rest, st) == Decode(ics, rest, Cleared)
    ensures code != Clr(ics) ==> match TurnOf(ics, st, code)
      case Fail(stop) => Handle(ics, code, rest, st) == Decoded([], stop)
      case Emit(s, next) =>
        NonEmpty(next) && next.Going?
        && Handle(ics, code, rest, st) == Decoded(s + Decode(ics, rest, next).pixels, Decode(ics, rest, next).stop)
  {
  }

  /** The source's rule for the width after one more code. */
  function Wider(width: nat, free: nat): nat {
    if free > Pow2(width) - 1 && width < 12 then width + 1 else width
  }

  lemma {:induction false} FirstWidth(ics: nat)
    requires InRange(ics)
    ensures FitWidth(ics + 1, Eof(ics)) == ics + 1
  {
    ClrBounds(ics);
  }

  /** Without a leading clear code and for two colours, the first code is one bit short. */
  lemma {:induction false} StartWidth(ics: nat)
    requires InRange(ics)
    ensures Wider(ics + 1, Eof(ics) + 2) == FitWidth(ics + 1, Eof(ics) + 2)
  {
    ClrBounds(ics);
    assert Pow2(ics + 2) == 2 * Pow2(ics + 1) == 4 * Clr(ics);
  }

  /** That rule keeps the width the least that fits. */
  lemma {:induction false} NextWidth(ics: nat, st: State)
    requires InRange(ics) && NonEmpty(st)
    ensures FitWidth(ics + 1, FreeOf(ics, st) + 1) == Wider(WidthOf(ics, st), FreeOf(ics, st) + 1)
  {
    hide Pow2, FitWidth, Clr;
    if st.Start? {
      StartWidth(ics);
    } else {
      FirstWidth(ics);
      WidthGrows(ics + 1, FreeOf(ics, st));
    }
  }

  /** With a dictionary, codes have the least width from the initial one up to 12 bits in which
      the next free code can be written. */
  lemma {:induction false} WidthIsLeast(ics: nat, st: State)
    requires InRange(ics) && st.Going?
    ensures var w, free := WidthOf(ics, st), FreeOf(ics, st);
      ics + 1 <= w <= 12 && (free < Pow2(w) || w == 12) && (w == ics + 1 || free >= Pow2(w - 1))
  {
    hide Pow2, FitWidth, Eof;
    LeastWidth(ics + 1, FreeOf(ics, st));
  }

  lemma {:induction false} LeastWidth(w: nat, n: nat)
    requires 1 <= w <= 12
    ensures var f := FitWidth(w, n); w <= f <= 12 && (n < Pow2(f) || f == 12) && (f == w || n >= Pow2(f - 1))
    decreases 12 - w
  {
    if w < 12 && n >= Pow2(w) {
      LeastWidth(w + 1, n);
    }
  }

  // ------------------------------------------------------ well-formed streams

  /** No code is beyond the next free one, and none but a clear or an end code comes when the
      table is full.  Only the codes since the last clear code are counted. */
  predicate CodesFit(ics: nat, bits: seq<bool>, free: nat, width: nat)
    requires InRange(ics) && width >= 1
    decreases |bits|
  {
    |bits| < width ||
    var code, rest := ValueOf(bits[..width]), bits[width..];
    code == Eof(ics) ||
    if code == Clr(ics) then CodesFit(ics, rest, Eof(ics), ics + 1)
    else if free == Eof(ics) && code > Eof(ics) then true
    else (free == Eof(ics) || code <= free < TABLE_SIZE) && CodesFit(ics, rest, free + 1, Wider(width, free + 1))
  }

  predicate Undefined(stop: Stop) {
    stop == BadCode || stop == TableFull
  }

  /** Decoding is defined exactly on the well-formed streams. */
  lemma {:induction false} DefinedExactly(ics: nat, bits: seq<bool>, st: State)
    requires InRange(ics) && NonEmpty(st)
    ensures WidthOf(ics, st) >= 1
    ensures Undefined(Decode(ics, bits, st).stop) <==> !CodesFit(ics, bits, FreeOf(ics, st), WidthOf(ics, st))
    decreases |bits|
  {
    hide Decode, Handle, FitWidth, Pow2, StringOf, Known, NonEmpty;
    CodeFits(ics, bits, st);
    var w := WidthOf(ics, st);
    if w <= |bits| {
      var code, rest := ValueOf(bits[..w]), bits[w..];
      ClrBelowEof(ics);
      if code == Eof(ics) {
        HandleEnd(ics, rest, st);
      } else {
        HandleCases(ics, code, rest, st);
        if code == Clr(ics) {
          DefinedExactly(ics, rest, Cleared);
        } else if TurnOf(ics, st, code).Emit? {
          DefinedExactly(ics, rest, TurnOf(ics, st, code).next);
          NextWidth(ics, st);
        }
      }
    }
  }

  lemma {:induction false} ClrBelowEof(ics: nat)
    ensures Clr(ics) + 1 == Eof(ics)
  {
  }

  // ------------------------------------------------------ table invariants

  /** The entry of a string: the code of a shorter string, and one more colour. */
  ghost predicate EntryOk(ics: nat, dict: seq<seq<Byte>>, prefix: seq<nat>, tail: seq<nat>, k: nat)
    requires InRange(ics) && |prefix| == |tail| == TABLE_SIZE
    requires k < |dict| && Eof(ics) + 1 + |dict| <= TABLE_SIZE
  {
    var c := Eof(ics) + 1 + k;
    tail[c] < 256
    && Known(ics, dict[..k], prefix[c])
    && dict[k] == StringOf(ics, dict[..k], prefix[c]) + [tail[c]]
  }

  ghost predicate Linked(ics: nat, dict: seq<seq<Byte>>, prefix: seq<nat>, tail: seq<nat>)
    requires InRange(ics) && |prefix| == |tail| == TABLE_SIZE
  {
    Eof(ics) + 1 + |dict| <= TABLE_SIZE
    && forall k: nat | k < |dict| :: EntryOk(ics, dict, prefix, tail, k)
  }

  /** Prefix chains strictly shorten: string k has at least 2 and at most k + 2 colours. */
  lemma {:induction false} EntryLength(ics: nat, dict: seq<seq<Byte>>, prefix: seq<nat>, tail: seq<nat>, k: nat)
    requires InRange(ics) && |prefix| == |tail| == TABLE_SIZE && k < |dict|
    requires Linked(ics, dict, prefix, tail)
    ensures 2 <= |dict[k]| <= k + 2
  {
    assert EntryOk(ics, dict, prefix, tail, k);
    var p := prefix[Eof(ics) + 1 + k];
    if p > Eof(ics) {
      EntryLength(ics, dict, prefix, tail, p - Eof(ics) - 1);
    }
  }

  lemma {:induction false} StringLength(ics: nat, dict: seq<seq<Byte>>, prefix: seq<nat>, tail: seq<nat>, code: nat)
    requires InRange(ics) && |prefix| == |tail| == TABLE_SIZE && Known(ics, dict, code)
    requires Linked(ics, dict, prefix, tail)
    ensures 1 <= |StringOf(ics, dict, code)| <= |dict| + 1
  {
    if code > Eof(ics) {
      EntryLength(ics, dict, prefix, tail, code - Eof(ics) - 1);
    }
  }

  /** Following one prefix takes the last colour off the string. */
  lemma {:induction false} Unlink(ics: nat, dict: seq<seq<Byte>>, prefix: seq<nat>, tail: seq<nat>, code: nat)
    requires InRange(ics) && |prefix| == |tail| == TABLE_SIZE && Known(ics, dict, code) && code > Eof(ics)
    requires Linked(ics, dict, prefix, tail)
    ensures tail[code] < 256 && prefix[code] < code && Known(ics, dict, prefix[code])
    ensures StringOf(ics, dict, code) == StringOf(ics, dict, prefix[code]) + [tail[code]]
  {
    assert EntryOk(ics, dict, prefix, tail, code - Eof(ics) - 1);
  }

  lemma {:induction false} Extend(
      ics: nat, dict: seq<seq<Byte>>, prefix: seq<nat>, tail: seq<nat>, code: nat, first: Byte)
    requires InRange(ics) && |prefix| == |tail| == TABLE_SIZE && Known(ics, dict, code)
    requires Linked(ics, dict, prefix, tail) && Eof(ics) + 1 + |dict| < TABLE_SIZE
    ensures var free := Eof(ics) + 1 + |dict|;
      Linked(ics, dict + [StringOf(ics, dict, code) + [first]], prefix[free := code], tail[free := first])
  {
    var free := Eof(ics) + 1 + |dict|;
    var longer := dict + [StringOf(ics, dict, code) + [first]];
    var p, t := prefix[free := code], tail[free := first];
    forall k: nat | k < |longer| ensures EntryOk(ics, longer, p, t, k) {
      assert longer[..k] == dict[..k];
      if k < |dict| {
        assert EntryOk(ics, dict, prefix, tail, k);
      } else {
        assert dict[..k] == dict;
      }
    }
  }

  function FromEnd(target: seq<Byte>, i: nat): Byte
    requires i < |target|
  {
    target[|target| - 1 - i]
  }

  /** The stack holds the end of target, last colour first. */
  ghost predicate Stacked(stack: seq<nat>, n: nat, target: seq<Byte>) {
    n <= |stack| && n <= |target| && forall i | 0 <= i < n :: stack[i] == FromEnd(target, i)
  }

  /** Part way through a string: cur still stands for what is not stacked yet. */
  ghost predicate Unwound(ics: nat, dict: seq<seq<Byte>>, stack: seq<nat>, n: nat, cur: nat, target: seq<Byte>)
    requires InRange(ics)
  {
    n < |target| <= |dict| + 2 && |stack| == TABLE_SIZE
    && Known(ics, dict, cur) && target[..|target| - n] == StringOf(ics, dict, cur)
    && Stacked(stack, n, target)
  }

  lemma {:induction false} UnwindMore(ics: nat, dict: seq<seq<Byte>>, prefix: seq<nat>, tail: seq<nat>,
      stack: seq<nat>, n: nat, cur: nat, target: seq<Byte>)
    requires InRange(ics) && |prefix| == |tail| == TABLE_SIZE && cur > Eof(ics)
    requires Linked(ics, dict, prefix, tail) && Unwound(ics, dict, stack, n, cur, target)
    ensures n + 1 < |target| && n < TABLE_SIZE && cur < TABLE_SIZE && prefix[cur] < cur
    ensures Unwound(ics, dict, stack[n := tail[cur]], n + 1, prefix[cur], target)
  {
    hide Linked, EntryOk;
    LinkedFits(ics, dict, prefix, tail);
    Unlink(ics, dict, prefix, tail, cur);
    StringLength(ics, dict, prefix, tail, prefix[cur]);
    var part := target[..|target| - n];
    assert part[|part| - 1] == FromEnd(target, n);
    assert target[..|target| - (n + 1)] == part[..|part| - 1];
    assert part[..|part| - 1] == StringOf(ics, dict, prefix[cur]);
  }

  lemma {:induction false} LinkedFits(ics: nat, dict: seq<seq<Byte>>, prefix: seq<nat>, tail: seq<nat>)
    requires InRange(ics) && |prefix| == |tail| == TABLE_SIZE && Linked(ics, dict, prefix, tail)
    ensures Eof(ics) + 1 + |dict| <= TABLE_SIZE
  {
  }

  lemma {:induction false} CodeCases(ics: nat, code: nat)
    requires code > Clr(ics) && code != Eof(ics)
    ensures code > Eof(ics)
  {
  }

  lemma {:induction false} UnwoundCode(
      ics: nat, dict: seq<seq<Byte>>, stack: seq<nat>, n: nat, cur: nat, target: seq<Byte>)
    requires InRange(ics) && Unwound(ics, dict, stack, n, cur, target)
    ensures cur != Clr(ics) && cur != Eof(ics)
  {
  }

  /** When only the root is left, stacking it completes the string. */
  lemma {:induction false} UnwindRoot(
      ics: nat, dict: seq<seq<Byte>>, stack: seq<nat>, n: nat, cur: nat, target: seq<Byte>)
    requires InRange(ics) && cur < Clr(ics) && Eof(ics) + 1 + |dict| <= TABLE_SIZE
    requires Unwound(ics, dict, stack, n, cur, target)
    ensures n == |target| - 1 < TABLE_SIZE && cur == target[0] && Stacked(stack[n := cur], n + 1, target)
  {
    assert StringOf(ics, dict, cur) == [cur];
    assert target[..|target| - n] == [cur];
    assert target[0] == target[..|target| - n][0];
  }

  /** Everything the new entry must do, whatever kind of code was read. */
  lemma {:induction false} Recorded(
      ics: nat, st: State, code: nat, last: nat, prefix: seq<nat>, tail: seq<nat>, free: nat)
    requires InRange(ics) && |prefix| == |tail| == TABLE_SIZE && NonEmpty(st) && code != Clr(ics) && code != Eof(ics)
    requires TurnOf(ics, st, code).Emit? && free == FreeOf(ics, st)
    requires !st.Cleared? ==>
      Linked(ics, DictOf(st), prefix, tail) && Known(ics, DictOf(st), last)
      && StringOf(ics, DictOf(st), last) == PrevOf(st)
    ensures var next := TurnOf(ics, st, code).next;
      free < TABLE_SIZE && free + 1 == Eof(ics) + 1 + |next.dict|
      && Linked(ics, next.dict, prefix[free := last], tail[free := TurnOf(ics, st, code).s[0]])
      && Known(ics, next.dict, code) && StringOf(ics, next.dict, code) == next.prev == TurnOf(ics, st, code).s
  {
    ClrBounds(ics);
    if !st.Cleared? {
      var dict, s := DictOf(st), TurnOf(ics, st, code).s;
      Extend(ics, dict, prefix, tail, last, s[0]);
      var longer := dict + [PrevOf(st) + [s[0]]];
      assert code < free ==> StringOf(ics, longer, code) == StringOf(ics, dict, code);
    }
  }

  // ------------------------------------------------------------ the decoder

  /** The variables of the decoding loop. */
  class LzwDecoder {
    const ics: nat
    const alphStack: array<nat>
    const alphPrefix: array<nat>
    const alphTail: array<nat>
    const pic: array<Byte>
    var free: nat
    var width: nat
    var max: nat
    var stackp: int
    var idx: nat
    var oldcode: nat
    var special: nat

    ghost predicate Shape()
      reads this
    {
      InRange(ics) && alphStack.Length == alphPrefix.Length == alphTail.Length == TABLE_SIZE
      && alphStack != alphPrefix && alphStack != alphTail && alphPrefix != alphTail
      && (pic as object) !in {alphStack as object, alphPrefix, alphTail}
      && idx <= pic.Length
    }

    ghost predicate Represents(st: State)
      requires Shape() && NonEmpty(st)
      reads this, alphPrefix, alphTail
    {
      stackp == 0 && width == WidthOf(ics, st) && max == Pow2(width) - 1
      && free == FreeOf(ics, st)
      && if st.Cleared? then forall c | Clr(ics) < c < TABLE_SIZE :: alphPrefix[c] == NO_CODE
         else
           Linked(ics, DictOf(st), alphPrefix[..], alphTail[..]) && Known(ics, DictOf(st), oldcode)
           && StringOf(ics, DictOf(st), oldcode) == PrevOf(st) && special == PrevOf(st)[0]
    }

    constructor (initialCodeSize: nat, picture: array<Byte>)
      requires InRange(initialCodeSize)
      ensures Shape() && Represents(Start)
      ensures ics == initialCodeSize && pic == picture && idx == 0
      ensures fresh(alphStack) && fresh(alphPrefix) && fresh(alphTail)
    {
      ClrBounds(initialCodeSize);
      ics := initialCodeSize;
      pic := picture;
      alphStack := new nat[TABLE_SIZE](_ => NO_CODE);
      alphPrefix := new nat[TABLE_SIZE](_ => NO_CODE);
      alphTail := new nat[TABLE_SIZE](_ => NO_CODE);
      free := Eof(initialCodeSize) + 1;
      width := initialCodeSize + 1;
      max := Pow2(initialCodeSize + 1) - 1;
      stackp, idx, oldcode, special := 0, 0, 0, 0;
    }

    /** The clear code: the widths and the tables start again. */
    method Clear()
      requires Shape() && stackp == 0
      modifies this`width, this`max, this`free, alphStack, alphPrefix, alphTail
      ensures Shape() && Represents(Cleared)
    {
      width := ics + 1;
      max := Pow2(width) - 1;
      free := Eof(ics);
      forall i | 0 <= i < TABLE_SIZE { alphStack[i] := NO_CODE; }
      forall i | 0 <= i < TABLE_SIZE { alphPrefix[i] := NO_CODE; }
      forall i | 0 <= i < TABLE_SIZE { alphTail[i] := NO_CODE; }
    }

    /** Follows the prefixes of a code, stacking the colours it passes. */
    method Unwind(code: nat, ghost dict: seq<seq<Byte>>, ghost target: seq<Byte>) returns (found: bool, curcode: nat)
      requires Shape() && code < TABLE_SIZE && code != Clr(ics) && code != Eof(ics) && 0 <= stackp <= 1
      requires Linked(ics, dict, alphPrefix[..], alphTail[..])
      requires if Known(ics, dict, code) then Unwound(ics, dict, alphStack[..], stackp, code, target)
        else alphPrefix[code] == NO_CODE
      modifies this`stackp, alphStack
      ensures Shape() && found == Known(ics, dict, code)
      ensures found ==>
        stackp == |target| - 1 < TABLE_SIZE && Stacked(alphStack[..], |target|, target) && curcode == target[0]
    {
      hide Linked, Stacked, StringOf, Unwound, Clr, Eof;
      LinkedFits(ics, dict, alphPrefix[..], alphTail[..]);
      curcode := code;
      ghost var known := Known(ics, dict, code);
      while curcode > Clr(ics)
        invariant Shape() && 0 <= stackp && curcode < TABLE_SIZE && curcode != Clr(ics) && curcode != Eof(ics)
        invariant if known then Unwound(ics, dict, alphStack[..], stackp, curcode, target)
          else curcode == code && stackp <= 1
        decreases curcode
      {
        if known {
          CodeCases(ics, curcode);
          UnwindMore(ics, dict, alphPrefix[..], alphTail[..], alphStack[..], stackp, curcode, target);
        }
        alphStack[stackp] := alphTail[curcode];
        stackp := stackp + 1;
        curcode := alphPrefix[curcode];
        if curcode == NO_CODE {
          return false, curcode;
        }
        UnwoundCode(ics, dict, alphStack[..], stackp, curcode, target);
      }
      UnwindRoot(ics, dict, alphStack[..], stackp, curcode, target);
      alphStack[stackp] := curcode;
      found := true;
    }

    /** Draws the stacked colours, topmost first. */
    method Draw(ghost target: seq<Byte>)
      requires Shape() && target != [] && stackp == |target| - 1 && idx + |target| <= pic.Length
      requires Stacked(alphStack[..], |target|, target)
      modifies this`stackp, this`idx, pic
      ensures Shape() && stackp == 0
      ensures pic[..idx] == old(pic[..idx]) + target
    {
      while stackp >= 0
        invariant Shape() && -1 <= stackp < |target| && idx == old(idx) + |target| - 1 - stackp
        invariant pic[..idx] == old(pic[..idx]) + target[..|target| - 1 - stackp]
      {
        pic[idx] := alphStack[stackp] % 256;
        idx := idx + 1;
        stackp := stackp - 1;
      }
      stackp := 0;
    }

    /** The string of a code, on the stack; a new code is the last string and its first colour. */
    method Expand(code: nat, ghost st: State) returns (found: bool, curcode: nat)
      requires Shape() && NonEmpty(st) && Represents(st)
      requires code != Clr(ics) && code != Eof(ics) && code < TABLE_SIZE
      requires st.Cleared? ==> oldcode == special == code
      requires var t := TurnOf(ics, st, code); t.Emit? || t.stop == Rejected
      modifies this`stackp, alphStack
      ensures Shape() && found == TurnOf(ics, st, code).Emit?
      ensures found ==> var target := TurnOf(ics, st, code).s;
        stackp == |target| - 1 < TABLE_SIZE && Stacked(alphStack[..], |target|, target) && curcode == target[0]
    {
      ghost var turn := TurnOf(ics, st, code);
      ghost var dict := DictOf(st);
      ghost var target := if turn.Emit? then turn.s else [];
      ClrBounds(ics);
      curcode := code;
      if curcode >= free {
        curcode := oldcode;
        alphStack[stackp] := special;
        stackp := stackp + 1;
      }
      if turn.Emit? {
        StringLength(ics, dict, alphPrefix[..], alphTail[..], curcode);
      }
      found, curcode := Unwind(curcode, dict, target);
    }

    /** Enters the last string, with the first colour of this one, under the next code. */
    method Record(readb: nat, curcode: nat, ghost st: State)
      requires Shape() && NonEmpty(st) && Represents(st)
      requires readb != Clr(ics) && readb != Eof(ics) && readb < TABLE_SIZE
      requires st.Cleared? ==> oldcode == readb
      requires TurnOf(ics, st, readb).Emit? && curcode == TurnOf(ics, st, readb).s[0]
      modifies this`free, this`width, this`max, this`oldcode, this`special, alphPrefix, alphTail
      ensures Shape() && Represents(TurnOf(ics, st, readb).next)
    {
      hide TurnOf, Linked, Known, StringOf, Clr, Pow2, FitWidth;
      ghost var next := TurnOf(ics, st, readb).next;
      Recorded(ics, st, readb, oldcode, alphPrefix[..], alphTail[..], free);
      special := curcode;
      alphPrefix[free] := oldcode;
      alphTail[free] := curcode;
      oldcode := readb;
      NextWidth(ics, st);
      free := free + 1;
      if free > max {
        if width < 12 {
          width := width + 1;
          max := Pow2(width) - 1;
        }
      }
    }

    /** One pass of the loop for a code that is neither clear nor end. */
    method Turn(code: nat, ghost st: State) returns (found: bool)
      requires Shape() && NonEmpty(st) && Represents(st)
      requires code != Clr(ics) && code != Eof(ics) && code < TABLE_SIZE
      requires st.Cleared? ==> oldcode == special == code
      requires var t := TurnOf(ics, st, code);
        if t.Emit? then idx + |t.s| <= pic.Length else t.stop == Rejected
      modifies this`stackp, this`idx, this`free, this`width, this`max, this`oldcode, this`special
      modifies alphStack, alphPrefix, alphTail, pic
      ensures Shape() && found == TurnOf(ics, st, code).Emit?
      ensures found ==>
        Represents(TurnOf(ics, st, code).next) && pic[..idx] == old(pic[..idx]) + TurnOf(ics, st, code).s
      ensures !found ==> idx == old(idx) && pic[..] == old(pic[..])
    {
      hide TurnOf, Stacked, Linked, Known, StringOf, WidthOf;
      var curcode;
      found, curcode := Expand(code, st);
      if found {
        Draw(TurnOf(ics, st, code).s);
        Record(code, curcode, st);
      }
    }

    /** Reads the next code at the current width. */
    method NextCode(reader: BitReader, ghost st: State) returns (more: bool, code: nat)
      requires Shape() && NonEmpty(st) && width == WidthOf(ics, st) && reader.Valid()
      modifies reader
      ensures reader.Valid()
      ensures !more ==> Decode(ics, old(reader.Pending()), st) == Decoded([], OutOfCodes)
      ensures more ==> code < TABLE_SIZE && |reader.Pending()| < |old(reader.Pending())|
      ensures more ==> Decode(ics, old(reader.Pending()), st) == Handle(ics, code, reader.Pending(), st)
    {
      hide Decode, Handle;
      CodeFits(ics, reader.Pending(), st);
      var res;
      res, code := reader.GetCode(width);
      more := res == Ok;
    }

    /** One pass of the decoding loop, up to and including reading the next code. */
    method Pass(code: nat, reader: BitReader, ghost st: State) returns (stop: Stop, next: nat, ghost st': State)
      requires Shape() && NonEmpty(st) && Represents(st) && reader.Valid()
      requires code != Eof(ics) && code < TABLE_SIZE && (st.Cleared? ==> oldcode == special == code)
      requires Allowed(pic.Length - idx, Handle(ics, code, reader.Pending(), st))
      modifies reader, this`stackp, this`idx, this`free, this`width, this`max, this`oldcode, this`special
      modifies alphStack, alphPrefix, alphTail, pic
      ensures Shape() && reader.Valid() && NonEmpty(st')
      ensures var d := Handle(ics, code, old(reader.Pending()), st);
        if stop != Complete then d.stop == stop && pic[..idx] == old(pic[..idx]) + d.pixels
        else
          var more := Handle(ics, next, reader.Pending(), st');
          next < TABLE_SIZE && Represents(st') && (st'.Cleared? ==> oldcode == special == next)
          && |reader.Pending()| < |old(reader.Pending())|
          && d.stop == more.stop && old(pic[..idx]) + d.pixels == pic[..idx] + more.pixels
    {
      hide Decode, Handle, NonEmpty, TurnOf, WidthOf, Linked, Known, StringOf, FreeOf, DictOf, PrevOf, Pow2;
      HandleCases(ics, code, reader.Pending(), st);
      st' := Cleared;
      if code == Clr(ics) {
        Clear();
      } else {
        var found := Turn(code, st);
        if !found {
          return Rejected, 0, st;
        }
        st' := TurnOf(ics, st, code).next;
      }
      var more;
      more, next := NextCode(reader, st');
      if !more {
        return OutOfCodes, 0, st';
      }
      if code == Clr(ics) {
        special, oldcode := next, next;
      }
      stop := Complete;
    }
  }

  /** A result the picture can hold, from a well-formed stream. */
  predicate Allowed(room: int, d: Decoded) {
    |d.pixels| <= room && !Undefined(d.stop)
  }

  datatype Loaded = Loaded(idx: nat, stop: Stop)

  /** The decoding loop of Gif::loadFromByteStream. */
  method DecodeImage(ics: nat, reader: BitReader, pic: array<Byte>) returns (r: Loaded)
    requires InRange(ics) && reader.Valid()
    requires CodesFit(ics, reader.Pending(), Eof(ics) + 1, ics + 1)
    requires |Decode(ics, reader.Pending(), Start).pixels| <= pic.Length
    modifies reader, pic
    ensures var d := Decode(ics, old(reader.Pending()), Start);
      r.stop == d.stop && r.idx == |d.pixels| && pic[..r.idx] == d.pixels
  {
    hide Decode, Handle, NonEmpty, TurnOf, WidthOf, FitWidth, Known, StringOf, Linked;
    StartIsNonEmpty(ics);
    DefinedExactly(ics, reader.Pending(), Start);
    var dec := new LzwDecoder(ics, pic);
    ghost var all := Decode(ics, reader.Pending(), Start);
    ghost var st := Start;
    var more: bool, code: nat := dec.NextCode(reader, st);
    if !more {
      return Loaded(0, OutOfCodes);
    }
    while code != Eof(ics)
      invariant reader.Valid() && dec.Shape() && NonEmpty(st) && dec.Represents(st)
      invariant dec.ics == ics && dec.pic == pic && code < TABLE_SIZE
      invariant fresh(dec) && fresh(dec.alphStack) && fresh(dec.alphPrefix) && fresh(dec.alphTail)
      invariant st.Cleared? ==> dec.oldcode == dec.special == code
      invariant all.stop == Handle(ics, code, reader.Pending(), st).stop
      invariant all.pixels == pic[..dec.idx] + Handle(ics, code, reader.Pending(), st).pixels
      decreases |reader.Pending()|
    {
      var stop;
      stop, code, st := dec.Pass(code, reader, st);
      if stop != Complete {
        return Loaded(dec.idx, stop);
      }
    }
    HandleEnd(ics, reader.Pending(), st);
    r := Loaded(dec.idx, Complete);
  }
}
