/** Making path names canonical in place. */
module Paths {

  datatype Option<T> = None | Some(value: T)

  const NUL: char := 0 as char

  // ------------------------------------------------------------- C strings

  /** The characters of a buffer up to its first NUL. */
  function Text(s: seq<char>): (t: seq<char>)
    ensures |t| <= |s|
  {
    if s == [] || s[0] == NUL then [] else [s[0]] + Text(s[1..])
  }

  /** The buffer holds a terminated string. */
  predicate Ended(s: seq<char>) {
    |Text(s)| < |s|
  }

  lemma {:induction false} TextIs(s: seq<char>, t: seq<char>)
    requires |t| < |s| && s[..|t|] == t && s[|t|] == NUL && NUL !in t
    ensures Text(s) == t && Ended(s)
  {
    if t != [] {
      assert s[1..][..|t| - 1] == t[1..];
      TextIs(s[1..], t[1..]);
    }
  }

  lemma {:induction false} TextChars(s: seq<char>)
    ensures var t := Text(s); s[..|t|] == t && NUL !in t && (|t| < |s| ==> s[|t|] == NUL)
  {
    if s != [] && s[0] != NUL {
      TextChars(s[1..]);
    }
  }

  // ------------------------------------------------------------ components

  type Delim = char -> bool

  /** Where the first component ends: the first delimiter past its first character. */
  function SegmentEnd(t: seq<char>, delim: Delim, i: nat): (n: nat)
    requires 1 <= i <= |t|
    ensures i <= n <= |t| && (n < |t| ==> delim(t[n])) && forall k | i <= k < n :: !delim(t[k])
    decreases |t| - i
  {
    if i == |t| || delim(t[i]) then i else SegmentEnd(t, delim, i + 1)
  }

  function Segments(t: seq<char>, delim: Delim): seq<seq<char>> {
    if t == [] then []
    else
      var n := SegmentEnd(t, delim, 1);
      [t[..n]] + Segments(t[n..], delim)
  }

  function Join(segs: seq<seq<char>>): seq<char> {
    if segs == [] then [] else segs[0] + Join(segs[1..])
  }

  predicate IsUp(seg: seq<char>) {
    |seg| == 3 && seg[1..] == ".."
  }

  predicate IsHere(seg: seq<char>) {
    |seg| == 2 && seg[1..] == "."
  }

  /** Components kept, and ".." components that no name absorbed. */
  datatype Resolved = Resolved(kept: seq<seq<char>>, ups: nat)

  /** One component in front of a flattened rest, with its pending "..". */
  function Prepend(seg: seq<char>, r: Resolved): Resolved {
    if IsUp(seg) then Resolved(r.kept, r.ups + 1)
    else if IsHere(seg) then r
    else if r.ups > 0 then Resolved(r.kept, r.ups - 1)
    else Resolved([seg] + r.kept, 0)
  }

  /** The code's order: from the right. */
  function FromRight(segs: seq<seq<char>>): Resolved {
    if segs == [] then Resolved([], 0) else Prepend(segs[0], FromRight(segs[1..]))
  }

  /** Walking into a component: a name descends, ".." leaves the last name. */
  function Enter(at: Resolved, seg: seq<char>): Resolved {
    if IsUp(seg) then
      if at.kept == [] then Resolved([], at.ups + 1) else Resolved(at.kept[..|at.kept| - 1], at.ups)
    else if IsHere(seg) then at
    else Resolved(at.kept + [seg], at.ups)
  }

  function Walk(segs: seq<seq<char>>, at: Resolved): Resolved
    decreases |segs|
  {
    if segs == [] then at else Walk(segs[1..], Enter(at, segs[0]))
  }

  /** Walking on from a place, in terms of what the rest of the path resolves to. */
  function After(at: Resolved, r: Resolved): Resolved {
    if r.ups <= |at.kept| then Resolved(at.kept[..|at.kept| - r.ups] + r.kept, at.ups)
    else Resolved(r.kept, at.ups + (r.ups - |at.kept|))
  }

  lemma {:induction false} PrefixTwice<T>(s: seq<T>, i: nat, j: nat)
    requires j <= i <= |s|
    ensures s[..i][..j] == s[..j]
  {
  }

  lemma {:induction false} PrefixOfLonger<T>(s: seq<T>, x: T, i: nat)
    requires i <= |s|
    ensures (s + [x])[..i] == s[..i]
  {
  }

  /** ".." before a rest: the last name goes first, or one more ".." is pending. */
  lemma {:induction false} UpThenAfter(at: Resolved, r: Resolved)
    ensures After(Resolved([], at.ups + 1), r) == After(Resolved([], at.ups), Resolved(r.kept, r.ups + 1))
    ensures at.kept != [] ==>
      After(Resolved(at.kept[..|at.kept| - 1], at.ups), r) == After(at, Resolved(r.kept, r.ups + 1))
  {
    if r.ups < |at.kept| {
      PrefixTwice(at.kept, |at.kept| - 1, |at.kept| - 1 - r.ups);
    }
  }

  /** A name before a rest that has a ".." pending. */
  lemma {:induction false} NameThenUp(at: Resolved, seg: seq<char>, r: Resolved)
    requires r.ups > 0
    ensures After(Resolved(at.kept + [seg], at.ups), r) == After(at, Resolved(r.kept, r.ups - 1))
  {
    if r.ups <= |at.kept| + 1 {
      PrefixOfLonger(at.kept, seg, |at.kept| + 1 - r.ups);
    }
  }

  /** A name that stays. */
  lemma {:induction false} NameStays(at: Resolved, seg: seq<char>, r: Resolved)
    requires r.ups == 0
    ensures After(Resolved(at.kept + [seg], at.ups), r) == After(at, Resolved([seg] + r.kept, 0))
  {
    var k := at.kept;
    assert k[..|k|] == k && (k + [seg])[..|k| + 1] == k + [seg];
    assert k + [seg] + r.kept == k + ([seg] + r.kept);
  }

  lemma {:induction false} EnterOrPrepend(at: Resolved, seg: seq<char>, r: Resolved)
    ensures After(Enter(at, seg), r) == After(at, Prepend(seg, r))
  {
    hide IsUp, IsHere, After;
    if IsUp(seg) {
      UpThenAfter(at, r);
    } else if !IsHere(seg) {
      if r.ups > 0 {
        NameThenUp(at, seg, r);
      } else {
        NameStays(at, seg, r);
      }
    }
  }

  lemma {:induction false} WalkFrom(segs: seq<seq<char>>, at: Resolved)
    ensures Walk(segs, at) == After(at, FromRight(segs))
  {
    hide Enter, Prepend;
    if segs == [] {
      assert at.kept[..|at.kept|] + [] == at.kept;
    } else {
      WalkFrom(segs[1..], Enter(at, segs[0]));
      EnterOrPrepend(at, segs[0], FromRight(segs[1..]));
    }
  }

  /** Flattening from the right keeps what a walk from the left keeps. */
  lemma {:induction false} RightIsLeft(segs: seq<seq<char>>)
    ensures FromRight(segs) == Walk(segs, Resolved([], 0))
  {
    WalkFrom(segs, Resolved([], 0));
    assert [][..0] + FromRight(segs).kept == FromRight(segs).kept;
  }

  // ------------------------------------------------------------ idempotence

  /** A component: a delimiter can only be its first character. */
  predicate OneSegment(seg: seq<char>, delim: Delim) {
    seg != [] && forall k | 1 <= k < |seg| :: !delim(seg[k])
  }

  predicate AllDelimited(segs: seq<seq<char>>, delim: Delim) {
    forall s | s in segs :: OneSegment(s, delim) && delim(s[0])
  }

  predicate Splits(segs: seq<seq<char>>, delim: Delim) {
    segs != [] ==> OneSegment(segs[0], delim) && AllDelimited(segs[1..], delim)
  }

  lemma {:induction false} EndOf(t: seq<char>, delim: Delim, i: nat, n: nat)
    requires 1 <= i <= n <= |t| && (n < |t| ==> delim(t[n])) && forall k | i <= k < n :: !delim(t[k])
    ensures SegmentEnd(t, delim, i) == n
    decreases n - i
  {
    if i < n {
      EndOf(t, delim, i + 1, n);
    }
  }

  lemma {:induction false} DelimitedSplits(segs: seq<seq<char>>, delim: Delim)
    requires AllDelimited(segs, delim)
    ensures Splits(segs, delim)
  {
    if segs != [] {
      assert segs[0] in segs;
    }
  }

  lemma {:induction false} SegmentsOfJoin(segs: seq<seq<char>>, delim: Delim)
    requires Splits(segs, delim)
    ensures Segments(Join(segs), delim) == segs
  {
    if segs != [] {
      var t, n := Join(segs), |segs[0]|;
      assert t[..n] == segs[0] && t[n..] == Join(segs[1..]);
      if |segs| > 1 {
        assert segs[1] in segs[1..];
        assert t[n..][0] == segs[1][0];
      }
      assert forall k | 1 <= k < n :: t[k] == segs[0][k];
      EndOf(t, delim, 1, n);
      DelimitedSplits(segs[1..], delim);
      SegmentsOfJoin(segs[1..], delim);
    }
  }

  lemma {:induction false} JoinOfSegments(t: seq<char>, delim: Delim)
    ensures Join(Segments(t, delim)) == t
    ensures t != [] && delim(t[0]) ==> AllDelimited(Segments(t, delim), delim)
    ensures Splits(Segments(t, delim), delim)
  {
    hide SegmentEnd;
    if t != [] {
      var n := SegmentEnd(t, delim, 1);
      FirstSegment(t, delim);
      JoinOfSegments(t[n..], delim);
      ghost var rest := Segments(t[n..], delim);
      assert Segments(t, delim) == [t[..n]] + rest;
      hide Segments, OneSegment;
      assert Join([t[..n]] + rest) == t[..n] + Join(rest);
    }
  }

  lemma {:induction false} FirstSegment(t: seq<char>, delim: Delim)
    requires t != []
    ensures OneSegment(t[..SegmentEnd(t, delim, 1)], delim)
  {
    var n := SegmentEnd(t, delim, 1);
    assert forall k | 1 <= k < n :: t[..n][k] == t[k];
  }

  lemma {:induction false} KeptAreSome(segs: seq<seq<char>>)
    ensures forall s | s in FromRight(segs).kept :: s in segs
  {
    if segs != [] {
      KeptAreSome(segs[1..]);
    }
  }

  lemma {:induction false} KeptSplits(segs: seq<seq<char>>, delim: Delim)
    requires Splits(segs, delim)
    ensures Splits(FromRight(segs).kept, delim)
  {
    if segs != [] {
      KeptAreSome(segs[1..]);
      var rest := FromRight(segs[1..]).kept;
      assert AllDelimited(rest, delim);
      DelimitedSplits(rest, delim);
      assert ([segs[0]] + rest)[1..] == rest;
    }
  }

  lemma {:induction false} NothingMoreToDo(segs: seq<seq<char>>)
    ensures FromRight(FromRight(segs).kept) == Resolved(FromRight(segs).kept, 0)
  {
    if segs != [] {
      NothingMoreToDo(segs[1..]);
    }
  }

  /** The text a path is flattened to, and the ".." that are left over. */
  function Flattened(t: seq<char>, delim: Delim): seq<char> {
    Join(FromRight(Segments(t, delim)).kept)
  }

  function Leftover(t: seq<char>, delim: Delim): nat {
    FromRight(Segments(t, delim)).ups
  }

  /** A flattened path is left as it is. */
  lemma {:induction false} Idempotent(t: seq<char>, delim: Delim)
    ensures Flattened(Flattened(t, delim), delim) == Flattened(t, delim)
    ensures Leftover(Flattened(t, delim), delim) == 0
  {
    var segs := Segments(t, delim);
    JoinOfSegments(t, delim);
    KeptSplits(segs, delim);
    SegmentsOfJoin(FromRight(segs).kept, delim);
    NothingMoreToDo(segs);
  }

  // --------------------------------------------------- paths put together

  /** What follows the first component of a path does not move its end, if it starts with a
      delimiter. */
  lemma {:induction false} SameFirstEnd(p: seq<char>, q: seq<char>, delim: Delim)
    requires p != [] && q != [] && delim(q[0])
    ensures SegmentEnd(p + q, delim, 1) == SegmentEnd(p, delim, 1)
  {
    hide SegmentEnd;
    var n, t := SegmentEnd(p, delim, 1), p + q;
    assert t[n] == if n < |p| then p[n] else q[0];
    EndOf(t, delim, 1, n);
  }

  lemma {:induction false} SplitFirst(t: seq<char>, delim: Delim)
    requires t != []
    ensures Segments(t, delim) == [t[..SegmentEnd(t, delim, 1)]] + Segments(t[SegmentEnd(t, delim, 1)..], delim)
  {
    hide SegmentEnd;
  }

  lemma {:induction false} NoSegments(delim: Delim)
    ensures Segments([], delim) == []
  {
  }

  /** Components of a path continued with a delimiter are those of both parts. */
  lemma {:induction false} SegmentsSplit(p: seq<char>, q: seq<char>, delim: Delim)
    requires q != [] && delim(q[0])
    ensures Segments(p + q, delim) == Segments(p, delim) + Segments(q, delim)
    decreases |p|
  {
    hide Segments, SegmentEnd;
    NoSegments(delim);
    if p == [] {
      assert p + q == q;
    } else {
      var n, t := SegmentEnd(p, delim, 1), p + q;
      SameFirstEnd(p, q, delim);
      SplitFirst(p, delim);
      SplitFirst(t, delim);
      assert t[..n] == p[..n] && t[n..] == p[n..] + q;
      SegmentsSplit(p[n..], q, delim);
    }
  }

  lemma {:induction false} WalkOn(a: seq<seq<char>>, b: seq<seq<char>>, at: Resolved)
    ensures Walk(a + b, at) == Walk(b, Walk(a, at))
  {
    if a == [] {
      assert a + b == b;
    } else {
      assert (a + b)[1..] == a[1..] + b;
      WalkOn(a[1..], b, Enter(at, a[0]));
    }
  }

  /** Where a path leads. */
  function Resolve(t: seq<char>, delim: Delim): Resolved {
    Walk(Segments(t, delim), Resolved([], 0))
  }

  lemma {:induction false} ResolveOn(p: seq<char>, q: seq<char>, delim: Delim)
    requires q != [] && delim(q[0])
    ensures Resolve(p + q, delim) == Walk(Segments(q, delim), Resolve(p, delim))
  {
    SegmentsSplit(p, q, delim);
    WalkOn(Segments(p, delim), Segments(q, delim), Resolved([], 0));
  }

  lemma {:induction false} SingleSegment(seg: seq<char>, delim: Delim)
    requires OneSegment(seg, delim)
    ensures Segments(seg, delim) == [seg]
  {
    EndOf(seg, delim, 1, |seg|);
    assert seg[..|seg|] == seg && seg[|seg|..] == [];
  }

  /** A path continued with one more component c..., where c is a delimiter: ".." takes back the
      last name, "." does nothing, and any other name is entered. */
  lemma {:induction false} OneMoreComponent(p: seq<char>, c: char, name: seq<char>, delim: Delim)
    requires delim(c) && forall k | 0 <= k < |name| :: !delim(name[k])
    ensures var at, next := Resolve(p, delim), Resolve(p + ([c] + name), delim);
      if name == ".." then
        next == (if at.kept == [] then Resolved([], at.ups + 1) else Resolved(at.kept[..|at.kept| - 1], at.ups))
      else if name == "." then next == at
      else next == Resolved(at.kept + [[c] + name], at.ups)
  {
    var seg := [c] + name;
    ResolveOn(p, seg, delim);
    SingleSegment(seg, delim);
    assert seg[1..] == name;
    WalkOne(seg, Resolve(p, delim));
  }

  lemma {:induction false} WalkOne(seg: seq<char>, at: Resolved)
    ensures Walk([seg], at) == Enter(at, seg)
  {
    var segs := [seg];
    assert segs[1..] == [];
  }

  // ------------------------------------------------------- in the buffer

  /** A char pointer into the buffer, or NULL. */
  type Pointer = Option<nat>

  ghost predicate PointsTo(buf: array<char>, p: Pointer, t: seq<char>)
    reads buf
  {
    if p.None? then t == []
    else p.value < buf.Length && Ended(buf[p.value..]) && Text(buf[p.value..]) == t
  }

  lemma {:induction false} TextStep(s: seq<char>)
    requires Ended(s)
    ensures Text(s) == [] <==> s[0] == NUL
    ensures s[0] != NUL ==> Text(s) == [s[0]] + Text(s[1..]) && Ended(s[1..])
  {
  }

  /** The part of a string behind one of its characters. */
  lemma {:induction false} TextFrom(s: seq<char>, n: nat)
    requires Ended(s) && n <= |Text(s)|
    ensures Ended(s[n..]) && Text(s[n..]) == Text(s)[n..] && Text(s)[..n] == s[..n]
  {
    TextChars(s);
    TextIs(s[n..], Text(s)[n..]);
  }

  lemma {:induction false} TextPut(s: seq<char>, n: nat)
    requires n <= |s| && Ended(s[n..]) && NUL !in s[..n]
    ensures Ended(s) && Text(s) == s[..n] + Text(s[n..])
  {
    TextChars(s[n..]);
    var t := s[..n] + Text(s[n..]);
    assert s[..|t|] == t by {
      assert s == s[..n] + s[n..];
    }
    TextIs(s, t);
  }

  /** next_delim: a delimiter past the first character, or the string's end. */
  method NextDelim(buf: array<char>, s: nat, delim: Delim) returns (q: Pointer)
    requires s < buf.Length && Ended(buf[s..]) && Text(buf[s..]) != []
    ensures var t := Text(buf[s..]);
      var n := SegmentEnd(t, delim, 1);
      (if q.Some? then q.value == s + n else n == |t|) && PointsTo(buf, q, t[n..])
  {
    ghost var t := Text(buf[s..]);
    TextChars(buf[s..]);
    var p := s;
    while buf[p] != NUL
      invariant s <= p <= s + |t|
      invariant forall k | 1 <= k < p - s + 1 && k < |t| :: !delim(t[k])
      decreases |t| - (p - s)
    {
      p := p + 1;
      TextFrom(buf[s..], p - s);
      assert buf[s..][p - s..] == buf[p..];
      if delim(buf[p]) {
        EndOf(t, delim, 1, p - s);
        return Some(p);
      }
    }
    EndOf(t, delim, 1, |t|);
    q := None;
  }

  /** strlen */
  function StrLen(s: seq<char>): nat {
    |Text(s)|
  }

  /** Removes the component in front of q. */
  method Remove(buf: array<char>, path: nat, q: Pointer, ghost rest: seq<char>)
    requires path < buf.Length && PointsTo(buf, q, rest) && (q.Some? ==> path < q.value)
    modifies buf
    ensures PointsTo(buf, Some(path), rest) && buf[..path] == old(buf[..path])
  {
    if q.Some? {
      var n := StrLen(buf[q.value..]);
      TextChars(buf[q.value..]);
      forall k | 0 <= k <= n {
        buf[path + k] := buf[q.value + k];
      }
      forall k | 0 <= k < n ensures buf[path..][k] == rest[k] {
        assert rest[k] == old(buf[..])[q.value..][k] == old(buf[..])[q.value + k];
      }
      assert buf[path..][..n] == rest;
    } else {
      buf[path] := NUL;
    }
    TextIs(buf[path..], rest);
  }

  /** What the first component does to the flattened rest of the path. */
  lemma {:induction false} FlattenedStep(t: seq<char>, delim: Delim)
    requires t != []
    ensures var n := SegmentEnd(t, delim, 1);
      var rest, ups := Flattened(t[n..], delim), Leftover(t[n..], delim);
      if n == 3 && t[1] == '.' && t[2] == '.' then
        Flattened(t, delim) == rest && Leftover(t, delim) == ups + 1
      else if n == 2 && t[1] == '.' then
        Flattened(t, delim) == rest && Leftover(t, delim) == ups
      else if ups > 0 then
        Flattened(t, delim) == rest && Leftover(t, delim) == ups - 1
      else Flattened(t, delim) == t[..n] + rest && Leftover(t, delim) == 0
  {
    var n := SegmentEnd(t, delim, 1);
    var seg := t[..n];
    hide SegmentEnd;
    assert IsUp(seg) <==> n == 3 && t[1] == '.' && t[2] == '.';
    assert IsHere(seg) <==> n == 2 && t[1] == '.';
    var r := FromRight(Segments(t[n..], delim));
    assert FromRight(Segments(t, delim)) == Prepend(seg, r);
    assert ([seg] + r.kept)[1..] == r.kept;
  }

  /** The buffer still holds the first component, and q what the rest became. */
  ghost predicate Halfway(buf: array<char>, i: nat, q: Pointer, seg: seq<char>, rest: seq<char>)
    reads buf
  {
    i + |seg| < buf.Length && buf[i..i + |seg|] == seg && seg != [] && NUL !in seg
    && PointsTo(buf, q, rest)
    && (if q.Some? then q.value == i + |seg| else buf[i + |seg|] == NUL)
  }

  lemma {:induction false} StillHalfway(
      was: seq<char>, buf: array<char>, i: nat, q: Pointer, seg: seq<char>, rest: seq<char>)
    requires i + |seg| < |was| == buf.Length && was[i..i + |seg|] == seg && seg != [] && NUL !in seg
    requires PointsTo(buf, q, rest) && (if q.Some? then q.value == i + |seg| else was[i + |seg|] == NUL)
    requires var k := if q.Some? then q.value else buf.Length; buf[..k] == was[..k]
    ensures Halfway(buf, i, q, seg, rest)
  {
    var k := if q.Some? then q.value else buf.Length;
    assert buf[i..i + |seg|] == buf[..k][i..i + |seg|];
    assert was[i..i + |seg|] == was[..k][i..i + |seg|];
  }

  /** ll of the source. */
  lemma {:induction false} LengthOfFirst(buf: array<char>, i: nat, q: Pointer, seg: seq<char>, rest: seq<char>)
    requires Halfway(buf, i, q, seg, rest)
    ensures (if q.Some? then q.value - i - 1 else StrLen(buf[i..]) - 1) == |seg| - 1
    ensures forall k: nat | k < |seg| :: buf[i + k] == seg[k]
  {
    if q.None? {
      TextIs(buf[i..], seg);
    }
    forall k: nat | k < |seg| ensures buf[i + k] == seg[k] {
      assert buf[i..i + |seg|][k] == seg[k];
    }
  }

  lemma {:induction false} KeepFirst(buf: array<char>, i: nat, q: Pointer, seg: seq<char>, rest: seq<char>)
    requires Halfway(buf, i, q, seg, rest)
    ensures PointsTo(buf, Some(i), seg + rest)
  {
    assert buf[i..][..|seg|] == seg;
    if q.None? {
      TextIs(buf[i..], seg);
      assert seg + rest == seg;
    } else {
      assert buf[i..][|seg|..] == buf[q.value..];
      TextPut(buf[i..], |seg|);
    }
  }

  lemma {:induction false} Split(buf: array<char>, i: nat, q: Pointer, t: seq<char>, n: nat)
    requires PointsTo(buf, Some(i), t) && 1 <= n <= |t| && PointsTo(buf, q, t[n..])
    requires if q.Some? then q.value == i + n else n == |t|
    ensures Halfway(buf, i, q, t[..n], t[n..])
  {
    TextChars(buf[i..]);
    assert buf[i..][..n] == t[..n];
  }

  /** flatten_path once the rest is flat: the tests for "." and ".." skip the first character. */
  method Settle(buf: array<char>, i: nat, q: Pointer, pending: nat, delim: Delim, ghost t: seq<char>) returns (pp: nat)
    requires t != [] && pending == Leftover(t[SegmentEnd(t, delim, 1)..], delim)
    requires var n := SegmentEnd(t, delim, 1); Halfway(buf, i, q, t[..n], Flattened(t[n..], delim))
    modifies buf
    ensures PointsTo(buf, Some(i), Flattened(t, delim)) && pp == Leftover(t, delim)
    ensures buf[..i] == old(buf[..i])
  {
    hide Text, Ended, SegmentEnd, Flattened, Leftover, StrLen;
    ghost var n := SegmentEnd(t, delim, 1);
    ghost var rest := Flattened(t[n..], delim);
    LengthOfFirst(buf, i, q, t[..n], rest);
    FlattenedStep(t, delim);
    pp := pending;
    var ll := if q.Some? then q.value - i - 1 else StrLen(buf[i..]) - 1;
    if ll == 2 && buf[i + 1] == '.' && buf[i + 2] == '.' {
      Remove(buf, i, q, rest);
      pp := pp + 1;
    } else if ll == 1 && buf[i + 1] == '.' {
      Remove(buf, i, q, rest);
    } else if pp > 0 {
      Remove(buf, i, q, rest);
      pp := pp - 1;
    } else {
      KeepFirst(buf, i, q, t[..n], rest);
    }
  }

  /** flatten_path */
  method FlattenPath(buf: array<char>, path: Pointer, delim: Delim, ghost t: seq<char>) returns (pp: nat)
    requires PointsTo(buf, path, t)
    modifies buf
    ensures PointsTo(buf, path, Flattened(t, delim)) && pp == Leftover(t, delim)
    ensures var k := if path.Some? then path.value else buf.Length; buf[..k] == old(buf[..k])
    decreases |t|
  {
    hide Text, Ended, SegmentEnd, Flattened, Leftover, StrLen;
    FlattenedNothing(delim);
    if path.None? {
      return 0;
    }
    var i := path.value;
    TextStep(buf[i..]);
    if buf[i] == NUL {
      return 0;
    }
    var q := NextDelim(buf, i, delim);
    ghost var n := SegmentEnd(t, delim, 1);
    Split(buf, i, q, t, n);
    ghost var was := buf[..];
    pp := FlattenPath(buf, q, delim, t[n..]);
    StillHalfway(was, buf, i, q, t[..n], Flattened(t[n..], delim));
    assert buf[..i] == old(buf[..i]) by {
      var k := if q.Some? then q.value else buf.Length;
      assert buf[..k][..i] == was[..k][..i];
    }
    pp := Settle(buf, i, q, pp, delim, t);
  }

  lemma {:induction false} FlattenedNothing(delim: Delim)
    ensures Flattened([], delim) == [] && Leftover([], delim) == 0
  {
  }

  // ---------------------------------------------------- sys_common_canonicalize

  predicate IsAlpha(c: char) {
    'a' <= c <= 'z' || 'A' <= c <= 'Z'
  }

  predicate IsAbsolute(filename: seq<char>, delim: Delim) {
    delim(if filename == [] then NUL else filename[0])
    || (|filename| > 1 && IsAlpha(filename[0]) && filename[1] == ':')
  }

  /** The path that is flattened: relative names start in the working directory. */
  function FullPath(filename: seq<char>, cwd: seq<char>, delim: Delim): seq<char> {
    if IsAbsolute(filename, delim) then filename
    else if cwd != [] && !delim(cwd[|cwd| - 1]) then cwd + "/" + filename
    else cwd + filename
  }

  /** A name that is taken as it stands: it starts with a delimiter, or with one of the 52 letters
      (ASCII codes 65 to 90 and 97 to 122) and a colon. */
  predicate TakenAsIs(filename: seq<char>, delim: Delim) {
    if filename == [] then delim(NUL)
    else
      delim(filename[0])
      || (|filename| >= 2 && filename[1] == ':'
          && (65 <= filename[0] as int <= 90 || 97 <= filename[0] as int <= 122))
  }

  lemma {:induction false} AbsoluteExactly(filename: seq<char>, delim: Delim)
    ensures IsAbsolute(filename, delim) <==> TakenAsIs(filename, delim)
  {
  }

  /** A directory without its trailing delimiter, and the delimiter a name in it starts with. */
  function Chop(cwd: seq<char>, delim: Delim): seq<char> {
    if cwd != [] && delim(cwd[|cwd| - 1]) then cwd[..|cwd| - 1] else cwd
  }

  function Separator(cwd: seq<char>, delim: Delim): char {
    if cwd != [] && delim(cwd[|cwd| - 1]) then cwd[|cwd| - 1] else '/'
  }

  /** Where a name leads: from the root when it is taken as it stands, else from where the
      working directory leads. */
  function Destination(filename: seq<char>, cwd: seq<char>, delim: Delim): Resolved {
    if TakenAsIs(filename, delim) || cwd == [] then Resolve(filename, delim)
    else Walk(Segments([Separator(cwd, delim)] + filename, delim), Resolve(Chop(cwd, delim), delim))
  }

  /** The joined path leads there, when "/" is a delimiter. */
  lemma {:induction false} JoinedPath(filename: seq<char>, cwd: seq<char>, delim: Delim)
    requires delim('/')
    ensures Resolve(FullPath(filename, cwd, delim), delim) == Destination(filename, cwd, delim)
  {
    hide Segments, Walk, Resolve;
    AbsoluteExactly(filename, delim);
    if !TakenAsIs(filename, delim) && cwd != [] {
      var c := Separator(cwd, delim);
      assert FullPath(filename, cwd, delim) == Chop(cwd, delim) + ([c] + filename);
      ResolveOn(Chop(cwd, delim), [c] + filename, delim);
    } else if cwd == [] {
      assert cwd + filename == filename;
    }
  }

  /** A working directory with and without a trailing "/" gives the same. */
  lemma {:induction false} TrailingSlash(filename: seq<char>, cwd: seq<char>, delim: Delim)
    requires delim('/') && cwd != [] && !delim(cwd[|cwd| - 1])
    ensures Destination(filename, cwd + "/", delim) == Destination(filename, cwd, delim)
  {
    assert Chop(cwd + "/", delim) == cwd == Chop(cwd, delim);
  }

  /** strcpy to an offset of the buffer */
  method StrCpy(buf: array<char>, at: nat, t: seq<char>)
    requires at + |t| < buf.Length && NUL !in t
    modifies buf
    ensures PointsTo(buf, Some(at), t) && buf[..at] == old(buf[..at]) && buf[at..at + |t|] == t
  {
    forall k | 0 <= k < |t| {
      buf[at + k] := t[k];
    }
    buf[at + |t|] := NUL;
    assert buf[at..][..|t|] == t;
    TextIs(buf[at..], t);
  }

  /** Fails without a working directory where one is needed, and on a leftover "..". */
  method Canonicalize(result: array<char>, filename: seq<char>, cwd: Option<seq<char>>, delim: Delim) returns (ok: bool)
    requires NUL !in filename && (cwd.Some? ==> NUL !in cwd.value)
    requires (if cwd.Some? then |cwd.value| + 1 else 0) + |filename| < result.Length
    modifies result
    ensures cwd.None? && !IsAbsolute(filename, delim) ==> !ok && result[..] == old(result[..])
    ensures cwd.Some? || IsAbsolute(filename, delim) ==>
      var full := FullPath(filename, if cwd.Some? then cwd.value else [], delim);
      ok == (Resolve(full, delim).ups == 0) && PointsTo(result, Some(0), Join(Resolve(full, delim).kept))
    ensures (cwd.Some? || TakenAsIs(filename, delim)) && delim('/') ==>
      var to := Destination(filename, if cwd.Some? then cwd.value else [], delim);
      ok == (to.ups == 0) && PointsTo(result, Some(0), Join(to.kept))
    ensures cwd.None? && !TakenAsIs(filename, delim) ==> !ok
  {
    hide Text, Ended, Segments, FromRight, Walk, TakenAsIs, Destination;
    AbsoluteExactly(filename, delim);
    if delim('/') {
      JoinedPath(filename, if cwd.Some? then cwd.value else [], delim);
    }
    var ol := 0;
    if !IsAbsolute(filename, delim) {
      if cwd.None? {
        return false;
      }
      StrCpy(result, 0, cwd.value);
      ol := |cwd.value|;
      if ol > 0 && !delim(cwd.value[ol - 1]) {
        StrCpy(result, ol, "/");
        assert result[..ol + 1] == result[..ol] + "/";
        ol := ol + 1;
      }
    }
    ghost var full := FullPath(filename, if cwd.Some? then cwd.value else [], delim);
    ghost var start := full[..ol];
    assert result[..ol] == start;
    StrCpy(result, ol, filename);
    assert result[0..][..ol] == start && result[0..][ol..] == result[ol..] && start + filename == full;
    TextPut(result[0..], ol);
    var k := FlattenPath(result, Some(0), delim, full);
    RightIsLeft(Segments(full, delim));
    ok := k == 0;
  }

  /** A canonical path has only names for components, and they are those of the path. */
  lemma {:induction false} OnlyNames(segs: seq<seq<char>>)
    ensures forall s | s in FromRight(segs).kept :: s in segs && !IsUp(s) && !IsHere(s)
  {
    if segs != [] {
      OnlyNames(segs[1..]);
    }
  }
}
