/** A GIF encoder (GIF89a, Appendix F), as the inverse the decoder must have. */
module LzwCoding {
  import opened Words
  import opened GifBits
  import opened Lzw

  predicate Prefix(s: seq<Byte>, t: seq<Byte>) {
    |s| <= |t| && s == t[..|s|]
  }

  predicate Colours(ics: nat, pixels: seq<Byte>) {
    forall i | 0 <= i < |pixels| :: pixels[i] < Clr(ics)
  }

  /** The code of the longest string, among the first n entries, that the pixels start with. */
  function Best(ics: nat, dict: seq<seq<Byte>>, pixels: seq<Byte>, n: nat): (code: nat)
    requires InRange(ics) && n <= |dict| && pixels != [] && Colours(ics, pixels)
    ensures Known(ics, dict, code) && Prefix(StringOf(ics, dict, code), pixels)
    ensures StringOf(ics, dict, code) != []
    ensures forall j | 0 <= j < n && Prefix(dict[j], pixels) :: |dict[j]| <= |StringOf(ics, dict, code)|
  {
    ClrBounds(ics);
    if n == 0 then pixels[0]
    else
      var b := Best(ics, dict, pixels, n - 1);
      if Prefix(dict[n - 1], pixels) && |dict[n - 1]| > |StringOf(ics, dict, b)| then Eof(ics) + n else b
  }

  /**
   * What an encoder writes from the same state: the longest known string each
   * time, and a clear code in front and whenever the table is full.
   */
  function Encode(ics: nat, pixels: seq<Byte>, st: State): seq<bool>
    requires InRange(ics) && NonEmpty(st) && Colours(ics, pixels)
    decreases |pixels|, if st.Cleared? then 0 else 1
  {
    var w := WidthOf(ics, st);
    if pixels == [] then BitsOf(Eof(ics), w)
    else if st.Start? || (st.Going? && FreeOf(ics, st) >= TABLE_SIZE) then
      BitsOf(Clr(ics), w) + Encode(ics, pixels, Cleared)
    else if st.Cleared? then
      BitsOf(pixels[0], w) + Encode(ics, pixels[1..], Going([], pixels[..1]))
    else
      var longer := st.dict + [st.prev + pixels[..1]];
      var code := Best(ics, longer, pixels, |longer|);
      var s := StringOf(ics, longer, code);
      BitsOf(code, w) + Encode(ics, pixels[|s|..], Going(longer, s))
  }

  // ------------------------------------------------------------- round trip

  /** The widths are wide enough for every code in use. */
  lemma {:induction false} CodeInWidth(w: nat, n: nat, code: nat)
    requires w <= 12 && code <= n < TABLE_SIZE
    ensures code < Pow2(FitWidth(w, n))
    decreases 12 - w
  {
    Pow2Values();
    if w < 12 && n >= Pow2(w) {
      CodeInWidth(w + 1, n, code);
    } else {
      FitWidthBounds(w, n);
    }
  }

  lemma {:induction false} EncodedCode(ics: nat, st: State, code: nat, more: seq<bool>)
    requires InRange(ics) && NonEmpty(st) && code < Pow2(WidthOf(ics, st))
    ensures Decode(ics, BitsOf(code, WidthOf(ics, st)) + more, st) == Handle(ics, code, more, st)
  {
    hide Handle, BitsOf;
    var w := WidthOf(ics, st);
    var bits := BitsOf(code, w) + more;
    assert bits[..w] == BitsOf(code, w) && bits[w..] == more;
    ValueOfLowBits(code, w);
    SmallRest(code, Pow2(w));
  }

  /** The dictionary the encoder is ahead by: one entry, whose last colour comes next. */
  lemma {:induction false} CodeMeansString(ics: nat, st: State, pixels: seq<Byte>, code: nat)
    requires InRange(ics) && NonEmpty(st) && st.Going? && pixels != [] && FreeOf(ics, st) < TABLE_SIZE
    requires Known(ics, st.dict + [st.prev + pixels[..1]], code)
    requires Prefix(StringOf(ics, st.dict + [st.prev + pixels[..1]], code), pixels)
    requires StringOf(ics, st.dict + [st.prev + pixels[..1]], code) != []
    ensures var longer := st.dict + [st.prev + pixels[..1]];
      var s := StringOf(ics, longer, code);
      code <= FreeOf(ics, st) && code != Clr(ics) && code != Eof(ics)
      && TurnOf(ics, st, code) == Emit(s, Going(longer, s))
  {
    ClrBounds(ics);
    var longer := st.dict + [st.prev + pixels[..1]];
    var s := StringOf(ics, longer, code);
    assert s[0] == pixels[0];
    if code == FreeOf(ics, st) {
      assert s == st.prev + pixels[..1];
      assert s[0] == st.prev[0];
    }
    assert pixels[..1] == [s[0]];
  }

  lemma {:induction false} CodeWidths(ics: nat, st: State)
    requires InRange(ics)
    ensures Eof(ics) < Pow2(WidthOf(ics, st))
  {
    hide Pow2;
    ClrBounds(ics);
    var n := Eof(ics) + 1 + (if st.Going? then |st.dict| else 0);
    FitWidthBounds(ics + 1, n);
    if st.Going? {
      Pow2Monotone(ics + 1, FitWidth(ics + 1, n));
    }
  }

  lemma {:induction false} EncodesString(ics: nat, pixels: seq<Byte>, st: State)
    requires InRange(ics) && NonEmpty(st) && Colours(ics, pixels)
    requires st.Going? && FreeOf(ics, st) < TABLE_SIZE && pixels != []
    ensures var longer := st.dict + [st.prev + pixels[..1]];
      var code := Best(ics, longer, pixels, |longer|);
      var s := StringOf(ics, longer, code);
      Encode(ics, pixels, st) == BitsOf(code, WidthOf(ics, st)) + Encode(ics, pixels[|s|..], Going(longer, s))
  {
    hide BitsOf, Best, FitWidth, Pow2;
  }

  /** One string written and read back. */
  lemma {:induction false} StringStep(ics: nat, pixels: seq<Byte>, st: State, padding: seq<bool>)
    requires InRange(ics) && NonEmpty(st) && Colours(ics, pixels)
    requires st.Going? && FreeOf(ics, st) < TABLE_SIZE && pixels != []
    requires var longer := st.dict + [st.prev + pixels[..1]];
      var s := StringOf(ics, longer, Best(ics, longer, pixels, |longer|));
      var next := Going(longer, s);
      Decode(ics, Encode(ics, pixels[|s|..], next) + padding, next) == Decoded(pixels[|s|..], Complete)
    ensures Decode(ics, Encode(ics, pixels, st) + padding, st) == Decoded(pixels, Complete)
  {
    hide Decode, Handle, BitsOf, TurnOf, Encode, Best, FitWidth, Pow2;
    EncodesString(ics, pixels, st);
    var w := WidthOf(ics, st);
    var longer := st.dict + [st.prev + pixels[..1]];
    var code := Best(ics, longer, pixels, |longer|);
    var s := StringOf(ics, longer, code);
    var more := Encode(ics, pixels[|s|..], Going(longer, s));
    CodeMeansString(ics, st, pixels, code);
    CodeInWidth(ics + 1, FreeOf(ics, st), code);
    assert BitsOf(code, w) + more + padding == BitsOf(code, w) + (more + padding);
    EncodedCode(ics, st, code, more + padding);
    HandleCases(ics, code, more + padding, st);
    assert s + pixels[|s|..] == pixels;
  }

  lemma {:induction false} FirstColour(ics: nat, pixels: seq<Byte>, padding: seq<bool>)
    requires InRange(ics) && Colours(ics, pixels) && pixels != []
    requires var next := Going([], pixels[..1]);
      Decode(ics, Encode(ics, pixels[1..], next) + padding, next) == Decoded(pixels[1..], Complete)
    ensures Decode(ics, Encode(ics, pixels, Cleared) + padding, Cleared) == Decoded(pixels, Complete)
  {
    hide Decode, Handle, BitsOf;
    ClrBounds(ics);
    CodeWidths(ics, Cleared);
    var w := WidthOf(ics, Cleared);
    var more := Encode(ics, pixels[1..], Going([], pixels[..1]));
    assert Encode(ics, pixels, Cleared) == BitsOf(pixels[0], w) + more;
    hide Encode;
    assert BitsOf(pixels[0], w) + more + padding == BitsOf(pixels[0], w) + (more + padding);
    EncodedCode(ics, Cleared, pixels[0], more + padding);
    HandleCases(ics, pixels[0], more + padding, Cleared);
    assert pixels[..1] == [pixels[0]] && pixels[..1] + pixels[1..] == pixels;
  }

  lemma {:induction false} ClearFirst(ics: nat, pixels: seq<Byte>, st: State, padding: seq<bool>)
    requires InRange(ics) && NonEmpty(st) && Colours(ics, pixels) && pixels != []
    requires st.Start? || (st.Going? && FreeOf(ics, st) >= TABLE_SIZE)
    requires Decode(ics, Encode(ics, pixels, Cleared) + padding, Cleared) == Decoded(pixels, Complete)
    ensures Decode(ics, Encode(ics, pixels, st) + padding, st) == Decoded(pixels, Complete)
  {
    hide Decode, Handle, BitsOf, TurnOf, Pow2, FitWidth;
    CodeWidths(ics, st);
    var w := WidthOf(ics, st);
    var more := Encode(ics, pixels, Cleared);
    assert Encode(ics, pixels, st) == BitsOf(Clr(ics), w) + more;
    hide Encode;
    assert BitsOf(Clr(ics), w) + more + padding == BitsOf(Clr(ics), w) + (more + padding);
    EncodedCode(ics, st, Clr(ics), more + padding);
    HandleCases(ics, Clr(ics), more + padding, st);
  }

  /** Decoding gives back every picture, whatever follows the end code. */
  lemma {:induction false} RoundTrip(ics: nat, pixels: seq<Byte>, st: State, padding: seq<bool>)
    requires InRange(ics) && NonEmpty(st) && Colours(ics, pixels)
    ensures Decode(ics, Encode(ics, pixels, st) + padding, st) == Decoded(pixels, Complete)
    decreases |pixels|, if st.Cleared? then 0 else 1
  {
    hide Decode, BitsOf, StringOf, Handle;
    if pixels == [] {
      CodeWidths(ics, st);
      EncodedCode(ics, st, Eof(ics), padding);
      HandleEnd(ics, padding, st);
    } else if st.Start? || (st.Going? && FreeOf(ics, st) >= TABLE_SIZE) {
      RoundTrip(ics, pixels, Cleared, padding);
      ClearFirst(ics, pixels, st, padding);
    } else if st.Cleared? {
      RoundTrip(ics, pixels[1..], Going([], pixels[..1]), padding);
      FirstColour(ics, pixels, padding);
    } else {
      var longer := st.dict + [st.prev + pixels[..1]];
      var s := StringOf(ics, longer, Best(ics, longer, pixels, |longer|));
      RoundTrip(ics, pixels[|s|..], Going(longer, s), padding);
      StringStep(ics, pixels, st, padding);
    }
  }

  // --------------------------------------------------- a deferred clear code

  /** Colour 0, n times over, with no clear code in between. */
  function ZeroCodes(ics: nat, st: State, n: nat): seq<bool>
    requires InRange(ics) && NonEmpty(st)
    decreases n
  {
    ClrBounds(ics);
    if n == 0 then []
    else
      BitsOf(0, WidthOf(ics, st))
      + (if TurnOf(ics, st, 0).Emit? then ZeroCodes(ics, TurnOf(ics, st, 0).next, n - 1) else [])
  }

  lemma {:induction false} ZerosFillTable(ics: nat, st: State, n: nat)
    requires InRange(ics) && NonEmpty(st) && !st.Start? && FreeOf(ics, st) + n > TABLE_SIZE
    requires FreeOf(ics, st) <= TABLE_SIZE
    ensures Decode(ics, ZeroCodes(ics, st, n), st).stop == TableFull
    decreases n
  {
    hide Decode, Handle, BitsOf, FitWidth, Pow2, NonEmpty;
    ClrBounds(ics);
    CodeWidths(ics, st);
    var t := TurnOf(ics, st, 0);
    var more := if t.Emit? then ZeroCodes(ics, t.next, n - 1) else [];
    assert ZeroCodes(ics, st, n) == BitsOf(0, WidthOf(ics, st)) + more;
    EncodedCode(ics, st, 0, more);
    HandleCases(ics, 0, more, st);
    if t.Emit? {
      ZerosFillTable(ics, t.next, n - 1);
    }
  }

  /** A stream that only puts off its clear code, which GIF89a allows, fills the tables. */
  lemma {:induction false} DeferredClearFillsTable(ics: nat)
    requires InRange(ics)
    ensures var bits := BitsOf(Clr(ics), ics + 1) + ZeroCodes(ics, Cleared, TABLE_SIZE);
      Decode(ics, bits, Start).stop == TableFull && !CodesFit(ics, bits, Eof(ics) + 1, ics + 1)
  {
    hide Decode, Handle, BitsOf, FitWidth, Pow2, CodesFit, ZeroCodes;
    var more := ZeroCodes(ics, Cleared, TABLE_SIZE);
    ClrBounds(ics);
    CodeWidths(ics, Start);
    EncodedCode(ics, Start, Clr(ics), more);
    HandleCases(ics, Clr(ics), more, Start);
    ZerosFillTable(ics, Cleared, TABLE_SIZE);
    DefinedExactly(ics, BitsOf(Clr(ics), ics + 1) + more, Start);
  }

  // ------------------------------------------------------------- an example

  /** Codes with their widths, as bits. */
  function CodeBits(codes: seq<(nat, nat)>): seq<bool> {
    if codes == [] then [] else BitsOf(codes[0].0, codes[0].1) + CodeBits(codes[1..])
  }

  /** One code of an example. */
  lemma {:induction false} CodeStep(ics: nat, codes: seq<(nat, nat)>, st: State)
    requires InRange(ics) && NonEmpty(st) && codes != []
    requires codes[0].1 == WidthOf(ics, st) && codes[0].0 < Pow2(codes[0].1)
    ensures Decode(ics, CodeBits(codes), st) == Handle(ics, codes[0].0, CodeBits(codes[1..]), st)
  {
    hide Decode, Handle, BitsOf, Pow2, FitWidth;
    EncodedCode(ics, st, codes[0].0, CodeBits(codes[1..]));
  }

  const ROW: seq<(nat, nat)> := [(4, 3), (1, 3), (6, 3), (6, 3), (2, 4), (9, 4), (9, 4), (5, 4)]

  lemma {:induction false} FourColours()
    ensures Clr(2) == 4 && Eof(2) == 5 && Pow2(3) == 8 && Pow2(4) == 16
    ensures WidthOf(2, Start) == WidthOf(2, Cleared) == 3
    ensures forall dict, prev :: |dict| <= 9 ==> WidthOf(2, Going(dict, prev)) == (if |dict| < 2 then 3 else 4)
  {
  }

  lemma {:induction false} TakesCode(codes: seq<(nat, nat)>, st: State, s: seq<Byte>, next: State, d: Decoded)
    requires NonEmpty(st) && codes != [] && codes[0].1 == WidthOf(2, st) && codes[0].0 < Pow2(codes[0].1)
    requires codes[0].0 != 4 && codes[0].0 != 5 && Clr(2) == 4 && Eof(2) == 5
    requires TurnOf(2, st, codes[0].0) == Emit(s, next) && NonEmpty(next) && Decode(2, CodeBits(codes[1..]), next) == d
    ensures Decode(2, CodeBits(codes), st) == Decoded(s + d.pixels, d.stop)
  {
    hide Decode, Handle, BitsOf, Pow2, FitWidth, TurnOf, NonEmpty, CodeBits, Clr, Eof;
    CodeStep(2, codes, st);
    HandleCases(2, codes[0].0, CodeBits(codes[1..]), st);
  }

  lemma {:induction false} TurnInto(
      dict: seq<seq<Byte>>, prev: seq<Byte>, code: nat, s: seq<Byte>, longer: seq<seq<Byte>>)
    requires |dict| < 10 && NonEmpty(Going(dict, prev)) && s != []
    requires if code < 4 then s == [code]
             else 6 <= code <= 6 + |dict| && s == (if code < 6 + |dict| then dict[code - 6] else prev + [prev[0]])
    requires longer == dict + [prev + [s[0]]] && Clr(2) == 4 && Eof(2) == 5
    ensures TurnOf(2, Going(dict, prev), code) == Emit(s, Going(longer, s)) && NonEmpty(Going(longer, s))
  {
    hide Clr, Eof;
  }

  /** The strings of the example, in the order in which they are entered. */
  const STRINGS: seq<seq<Byte>> := [[1, 1], [1, 1, 1], [1, 1, 2], [2, 2], [2, 2, 2]]

  lemma {:induction false} Entries()
    ensures [1] + [1] == STRINGS[0] && [1, 1] + [1] == STRINGS[1] && [1, 1] + [2] == STRINGS[2]
    ensures [2] + [2] == STRINGS[3] && [2, 2] + [2] == STRINGS[4]
  {
  }

  lemma {:induction false} ExampleTail()
    ensures Decode(2, CodeBits(ROW[4..]), Going(STRINGS[..2], [1, 1])) == Decoded([2, 2, 2, 2, 2], Complete)
  {
    hide Decode, Handle, BitsOf, CodeBits, FitWidth, Clr, Eof, TurnOf, Pow2, WidthOf;
    FourColours();
    Entries();
    var d := STRINGS;
    CodeStep(2, ROW[7..], Going(d[..5], [2, 2]));
    HandleEnd(2, CodeBits(ROW[8..]), Going(d[..5], [2, 2]));
    TurnInto(d[..4], [2, 2], 9, [2, 2], d[..5]);
    TakesCode(ROW[6..], Going(d[..4], [2, 2]), [2, 2], Going(d[..5], [2, 2]), Decoded([], Complete));
    TurnInto(d[..3], [2], 9, [2, 2], d[..4]);
    TakesCode(ROW[5..], Going(d[..3], [2]), [2, 2], Going(d[..4], [2, 2]), Decoded([2, 2], Complete));
    TurnInto(d[..2], [1, 1], 2, [2], d[..3]);
    TakesCode(ROW[4..], Going(d[..2], [1, 1]), [2], Going(d[..3], [2]), Decoded([2, 2, 2, 2], Complete));
  }

  /** Four colours, ten pixels: clear, 1, then twice a new string of ones, and so on to the end. */
  lemma {:induction false} ExampleRow()
    ensures Decode(2, CodeBits(ROW), Start) == Decoded([1, 1, 1, 1, 1, 2, 2, 2, 2, 2], Complete)
  {
    hide Decode, Handle, BitsOf, CodeBits, FitWidth, Clr, Eof, TurnOf, Pow2, WidthOf;
    FourColours();
    Entries();
    ExampleTail();
    FirstColourTurn();
    var d := STRINGS;
    TurnInto(d[..1], [1, 1], 6, [1, 1], d[..2]);
    TakesCode(ROW[3..], Going(d[..1], [1, 1]), [1, 1], Going(d[..2], [1, 1]), Decoded([2, 2, 2, 2, 2], Complete));
    TurnInto(d[..0], [1], 6, [1, 1], d[..1]);
    TakesCode(ROW[2..], Going(d[..0], [1]), [1, 1], Going(d[..1], [1, 1]), Decoded([1, 1, 2, 2, 2, 2, 2], Complete));
    TakesCode(ROW[1..], Cleared, [1], Going(d[..0], [1]), Decoded([1, 1, 1, 1, 2, 2, 2, 2, 2], Complete));
    CodeStep(2, ROW, Start);
    HandleCases(2, 4, CodeBits(ROW[1..]), Start);
  }

  lemma {:induction false} FirstColourTurn()
    ensures Clr(2) == 4 && Eof(2) == 5 ==> TurnOf(2, Cleared, 1) == Emit([1], Going([], [1]))
  {
  }
}
