/** The substrings filter (_match_substrings in rangefinder/facades/ldap.py), against section 4.5.1.7.2 of
    RFC 4511: which values the search accepts, and for which filters that is what the standard says. */
module LdapFilter {
  import opened Prelude

  datatype Piece = Initial(text: string) | AnyPiece(text: string) | Final(text: string)

  /** What a list of pieces asks for; an absent or empty prefix or suffix asks for nothing. */
  datatype Pattern = Pattern(initial: string, anys: seq<string>, final: string)

  predicate StartsWith(v: string, a: string) {
    Occurs(v, a, 0)
  }

  /** The pieces can be placed in order, none overlapping another, between `from` and `to`. */
  ghost predicate Placed(v: string, anys: seq<string>, from: nat, to: nat) {
    if anys == [] then from <= to
    else exists p: nat :: from <= p && Occurs(v, anys[0], p) && Placed(v, anys[1..], p + |anys[0]|, to)
  }

  /** What the search decides: the prefix, the suffix, and the middle pieces anywhere in the value. */
  ghost predicate Accepts(v: string, f: Pattern) {
    StartsWith(v, f.initial) && EndsWith(v, f.final) && Placed(v, f.anys, 0, |v|)
  }

  /** What the standard defines: the middle pieces lie between the prefix and the suffix. */
  ghost predicate Standard(v: string, f: Pattern) {
    StartsWith(v, f.initial) && EndsWith(v, f.final) && Placed(v, f.anys, |f.initial|, |v| - |f.final|)
  }

  /** What a list of pieces amounts to: the last prefix, the last suffix, the middle ones in order. */
  function Collect(pieces: seq<Piece>, lower: string -> string): Pattern {
    if pieces == [] then Pattern("", [], "")
    else
      var f := Collect(pieces[..|pieces| - 1], lower);
      match pieces[|pieces| - 1]
      case Initial(t) => f.(initial := lower(t))
      case AnyPiece(t) => f.(anys := f.anys + [lower(t)])
      case Final(t) => f.(final := lower(t))
  }

  // ---------------------------------------------------------------- the search

  /** str.find: the leftmost occurrence at or after `from`. */
  function Find(v: string, a: string, from: nat): (r: Option<nat>)
    requires from <= |v|
    ensures r.None? ==> forall p :: from <= p <= |v| ==> !Occurs(v, a, p)
    ensures r.Some? ==> from <= r.value && Occurs(v, a, r.value)
                        && forall p :: from <= p < r.value ==> !Occurs(v, a, p)
    decreases |v| - from
  {
    if Occurs(v, a, from) then Some(from)
    else if from == |v| then None
    else Find(v, a, from + 1)
  }

  lemma {:induction false} PlacedEarlier(v: string, anys: seq<string>, from: nat, from': nat, to: nat)
    requires from <= from' && Placed(v, anys, from', to)
    ensures Placed(v, anys, from, to)
  {}

  lemma {:induction false} PlacedInside(v: string, anys: seq<string>, from: nat, to: nat)
    requires Placed(v, anys, from, to)
    ensures from <= to
    decreases |anys|
  {
    if anys != [] {
      var p: nat :| from <= p && Occurs(v, anys[0], p) && Placed(v, anys[1..], p + |anys[0]|, to);
      PlacedInside(v, anys[1..], p + |anys[0]|, to);
    }
  }

  /** Taking the leftmost occurrence never spoils a later placement. */
  lemma LeftmostIsEnough(v: string, anys: seq<string>, pos: nat)
    requires anys != [] && pos <= |v|
    ensures var at := Find(v, anys[0], pos);
            Placed(v, anys, pos, |v|) <==> at.Some? && Placed(v, anys[1..], at.value + |anys[0]|, |v|)
  {
    var at := Find(v, anys[0], pos);
    if Placed(v, anys, pos, |v|) {
      var p: nat :| pos <= p && Occurs(v, anys[0], p) && Placed(v, anys[1..], p + |anys[0]|, |v|);
      assert at.Some? && at.value <= p;
      PlacedEarlier(v, anys[1..], at.value + |anys[0]|, p + |anys[0]|, |v|);
    }
  }

  /** The loop over the middle pieces, each sought past the one before. */
  method PlaceAll(v: string, anys: seq<string>) returns (ok: bool)
    ensures ok <==> Placed(v, anys, 0, |v|)
  {
    var pos: nat := 0;
    assert anys[0..] == anys;
    for i := 0 to |anys|
      invariant pos <= |v|
      invariant Placed(v, anys, 0, |v|) <==> Placed(v, anys[i..], pos, |v|)
    {
      LeftmostIsEnough(v, anys[i..], pos);
      assert anys[i..][1..] == anys[i + 1..];
      var at := Find(v, anys[i], pos);
      if at.None? { return false; }
      pos := at.value + |anys[i]|;
    }
    ok := true;
  }

  method CollectPieces(pieces: seq<Piece>, lower: string -> string) returns (f: Pattern)
    ensures f == Collect(pieces, lower)
  {
    f := Pattern("", [], "");
    for i := 0 to |pieces|
      invariant f == Collect(pieces[..i], lower)
    {
      assert pieces[..i + 1][..i] == pieces[..i];
      match pieces[i]
      case Initial(t) => f := f.(initial := lower(t));
      case AnyPiece(t) => f := f.(anys := f.anys + [lower(t)]);
      case Final(t) => f := f.(final := lower(t));
    }
    assert pieces[..|pieces|] == pieces;
  }

  /** The whole search: some value has the prefix, the suffix and the middle pieces in any placement. */
  method MatchSubstrings(values: seq<string>, pieces: seq<Piece>, lower: string -> string) returns (found: bool)
    ensures found <==> exists k :: 0 <= k < |values| && Accepts(lower(values[k]), Collect(pieces, lower))
  {
    var f := CollectPieces(pieces, lower);
    for i := 0 to |values|
      invariant forall k :: 0 <= k < i ==> !Accepts(lower(values[k]), f)
    {
      var v := lower(values[i]);
      if StartsWith(v, f.initial) && EndsWith(v, f.final) {
        var ok := PlaceAll(v, f.anys);
        if ok { return true; }
      }
    }
    found := false;
  }

  // ---------------------------------------------------------------- against the standard

  lemma {:induction false} PlacedLater(v: string, anys: seq<string>, from: nat, to: nat, to': nat)
    requires to <= to' && Placed(v, anys, from, to)
    ensures Placed(v, anys, from, to')
    decreases |anys|
  {
    if anys != [] {
      var p: nat :| from <= p && Occurs(v, anys[0], p) && Placed(v, anys[1..], p + |anys[0]|, to);
      PlacedLater(v, anys[1..], p + |anys[0]|, to, to');
    }
  }

  /** The search never misses a match the standard defines. */
  lemma NeverMisses(v: string, f: Pattern)
    requires Standard(v, f)
    ensures Accepts(v, f)
  {
    PlacedLater(v, f.anys, |f.initial|, |v| - |f.final|, |v|);
    PlacedEarlier(v, f.anys, 0, |f.initial|, |v|);
  }

  lemma {:induction false} OnlyNonEmptyMatter(v: string, anys: seq<string>, from: nat, to: nat)
    requires to <= |v|
    ensures Placed(v, anys, from, to) <==> Placed(v, NonEmpty(anys), from, to)
    decreases |anys|
  {
    if anys != [] {
      var s, rest := NonEmpty(anys), anys[1..];
      forall p: nat ensures Placed(v, rest, p, to) <==> Placed(v, NonEmpty(rest), p, to) {
        OnlyNonEmptyMatter(v, rest, p, to);
      }
      if anys[0] == "" {
        if Placed(v, anys, from, to) {
          var p: nat :| from <= p && Occurs(v, "", p) && Placed(v, rest, p + 0, to);
          PlacedEarlier(v, rest, from, p, to);
        }
        if Placed(v, rest, from, to) {
          PlacedInside(v, rest, from, to);
          assert Occurs(v, "", from) && Placed(v, rest, from + 0, to);
        }
      } else {
        assert s[1..] == NonEmpty(rest);
      }
    }
  }

  /** `b` put over `a` from position `p` on agrees with it where both reach. */
  predicate AgreesFrom(a: string, b: string, p: nat)
    requires p <= |a|
  {
    if p + |b| <= |a| then a[p..p + |b|] == b else a[p..] == b[..|a| - p]
  }

  /** `a` ending `e` before the end of `b` agrees with it where both reach. */
  predicate AgreesBefore(a: string, b: string, e: nat)
    requires e <= |b|
  {
    var n := |b| - e;
    if |a| <= n then b[n - |a|..n] == a else a[|a| - n..] == b[..n]
  }

  /** A piece next to the prefix or the suffix could lie over it. */
  predicate Ambiguous(f: Pattern) {
    var s := NonEmpty(f.anys);
    if s == [] then
      exists p :: 0 <= p < |f.initial| && |f.initial| <= p + |f.final| && AgreesFrom(f.initial, f.final, p)
    else
      CanLieOver(f.initial, s[0]) || CanLieUnder(s[|s| - 1], f.final)
  }

  /** `b` can start inside `a`, which starts the value. */
  predicate CanLieOver(a: string, b: string) {
    exists p :: 0 <= p < |a| && AgreesFrom(a, b, p)
  }

  /** `a` can end inside `b`, which ends the value. */
  predicate CanLieUnder(a: string, b: string) {
    exists e :: 0 <= e < |b| && AgreesBefore(a, b, e)
  }

  lemma OverPrefix(v: string, a: string, b: string, p: nat)
    requires StartsWith(v, a) && Occurs(v, b, p) && p < |a|
    ensures AgreesFrom(a, b, p)
  {
    assert v[..|a|] == a;
    if p + |b| <= |a| {
      assert a[p..p + |b|] == v[p..p + |b|];
    } else {
      assert a[p..] == v[p..p + |b|][..|a| - p];
    }
  }

  lemma SliceOfOccurrence(v: string, a: string, p: nat, lo: nat, hi: nat)
    requires Occurs(v, a, p) && lo <= hi <= |a|
    ensures v[p + lo..p + hi] == a[lo..hi]
  {
    forall i | lo <= i < hi ensures v[p + i] == a[i] {
      assert v[p..p + |a|][i] == a[i];
    }
  }

  lemma OverSuffix(v: string, a: string, b: string, p: nat)
    requires EndsWith(v, b) && Occurs(v, a, p) && p + |a| > |v| - |b|
    ensures var e := |v| - (p + |a|); e < |b| && AgreesBefore(a, b, e)
  {
    var e := |v| - (p + |a|);
    var n := |b| - e;
    var start := |v| - |b|;
    if |a| <= n {
      SliceOfOccurrence(v, b, start, n - |a|, n);
    } else {
      SliceOfOccurrence(v, a, p, |a| - n, |a|);
      SliceOfOccurrence(v, b, start, 0, n);
    }
  }

  /** A last piece that cannot lie over the suffix ends before it. */
  lemma {:induction false} EndsBeforeSuffix(v: string, anys: seq<string>, final: string, from: nat)
    requires anys != [] && EndsWith(v, final) && Placed(v, anys, from, |v|)
    requires !CanLieUnder(anys[|anys| - 1], final)
    ensures Placed(v, anys, from, |v| - |final|)
    decreases |anys|
  {
    var p: nat :| from <= p && Occurs(v, anys[0], p) && Placed(v, anys[1..], p + |anys[0]|, |v|);
    if |anys| == 1 {
      if p + |anys[0]| > |v| - |final| { OverSuffix(v, anys[0], final, p); }
      assert Placed(v, anys[1..], p + |anys[0]|, |v| - |final|);
    } else {
      EndsBeforeSuffix(v, anys[1..], final, p + |anys[0]|);
    }
  }

  /** A first piece that cannot lie over the prefix starts after it. */
  lemma StartsAfterPrefix(v: string, anys: seq<string>, initial: string, to: nat)
    requires anys != [] && StartsWith(v, initial) && Placed(v, anys, 0, to)
    requires !CanLieOver(initial, anys[0])
    ensures Placed(v, anys, |initial|, to)
  {
    var p: nat :| Occurs(v, anys[0], p) && Placed(v, anys[1..], p + |anys[0]|, to);
    if p < |initial| { OverPrefix(v, initial, anys[0], p); }
  }

  lemma UnambiguousIsExact(v: string, f: Pattern)
    requires !Ambiguous(f) && Accepts(v, f)
    ensures Standard(v, f)
  {
    var s := NonEmpty(f.anys);
    OnlyNonEmptyMatter(v, f.anys, 0, |v|);
    OnlyNonEmptyMatter(v, f.anys, |f.initial|, |v| - |f.final|);
    if s == [] {
      if |v| < |f.initial| + |f.final| { OverPrefix(v, f.initial, f.final, |v| - |f.final|); }
    } else {
      EndsBeforeSuffix(v, s, f.final, 0);
      StartsAfterPrefix(v, s, f.initial, |v| - |f.final|);
    }
  }

  // ---------------------------------------------------------------- values it accepts by overlapping

  lemma {:induction false} PlacedTakesRoom(v: string, anys: seq<string>, from: nat, to: nat)
    requires Placed(v, anys, from, to)
    ensures from + |Concat(anys)| <= to
    decreases |anys|
  {
    if anys != [] {
      var p: nat :| from <= p && Occurs(v, anys[0], p) && Placed(v, anys[1..], p + |anys[0]|, to);
      PlacedTakesRoom(v, anys[1..], p + |anys[0]|, to);
    }
  }

  /** The standard needs room for every piece. */
  lemma StandardTakesRoom(v: string, f: Pattern)
    requires Standard(v, f)
    ensures |f.initial| + |Concat(NonEmpty(f.anys))| + |f.final| <= |v|
  {
    OnlyNonEmptyMatter(v, f.anys, |f.initial|, |v| - |f.final|);
    PlacedTakesRoom(v, NonEmpty(f.anys), |f.initial|, |v| - |f.final|);
  }

  lemma OccursBetween(before: string, a: string, after: string)
    ensures Occurs(before + a + after, a, |before|)
  {}

  lemma Regroup(a: string, b: string, c: string, d: string)
    ensures a + (b + c) + d == a + b + (c + d) == (a + b) + c + d
  {}

  /** Pieces written one after another are placed there; one more may follow wherever it occurs. */
  lemma {:induction false} PlacedInARow(before: string, anys: seq<string>, after: string, last: seq<string>, q: nat)
    requires |last| <= 1
    requires var v := before + Concat(anys) + after;
             last != [] ==> |before + Concat(anys)| <= q && Occurs(v, last[0], q)
    ensures var v := before + Concat(anys) + after; Placed(v, anys + last, |before|, |v|)
    decreases |anys|
  {
    var v := before + Concat(anys) + after;
    if anys == [] {
      assert anys + last == last;
      if last != [] {
        assert Occurs(v, last[0], q) && Placed(v, last[1..], q + |last[0]|, |v|);
        assert Placed(v, last, |before|, |v|);
      }
    } else {
      var rest := Concat(anys[1..]);
      Regroup(before, anys[0], rest, after);
      OccursBetween(before, anys[0], rest + after);
      PlacedInARow(before + anys[0], anys[1..], after, last, q);
      assert (anys + last)[1..] == anys[1..] + last;
      assert Occurs(v, (anys + last)[0], |before|) && Placed(v, (anys + last)[1..], |before| + |anys[0]|, |v|);
    }
  }

  /** The prefix with the first piece laid over it. */
  function OverlaidHead(initial: string, a: string, p: nat): string
    requires p <= |initial|
  {
    if p + |a| <= |initial| then initial else initial[..p] + a
  }

  /** The suffix with the last piece laid over it. */
  function OverlaidTail(a: string, final: string, e: nat): string
    requires e <= |final|
  {
    if |a| + e <= |final| then final else a + final[|final| - e..]
  }

  lemma HeadHoldsBoth(initial: string, a: string, p: nat, after: string)
    requires p < |initial| && AgreesFrom(initial, a, p)
    ensures var v := OverlaidHead(initial, a, p) + after; StartsWith(v, initial) && Occurs(v, a, p)
  {
    var head := OverlaidHead(initial, a, p);
    if p + |a| > |initial| {
      assert initial == initial[..p] + initial[p..];
      assert a == a[..|initial| - p] + a[|initial| - p..];
      assert head == initial + a[|initial| - p..];
      assert (head + after)[..|initial|] == initial;
    }
    assert (head + after)[p..p + |a|] == head[p..p + |a|] == a;
  }

  lemma TailHoldsBoth(before: string, a: string, final: string, e: nat)
    requires e < |final| && AgreesBefore(a, final, e)
    ensures var v := before + OverlaidTail(a, final, e);
            EndsWith(v, final) && |a| + e <= |v| && |before| <= |v| - e - |a| && Occurs(v, a, |v| - e - |a|)
  {
    var n := |final| - e;
    var v := before + OverlaidTail(a, final, e);
    if |a| <= n {
      OccursAtEnd(before, final);
      SliceOfOccurrence(v, final, |before|, n - |a|, n);
    } else {
      OverlaidTailEnds(a, final, e);
      var front := before + a[..|a| - n];
      assert v == front + final && v == before + a + final[n..];
      OccursAtEnd(front, final);
      OccursBetween(before, a, final[n..]);
    }
  }

  lemma OccursAtEnd(before: string, a: string)
    ensures EndsWith(before + a, a) && Occurs(before + a, a, |before|)
  {}

  lemma OverlaidTailEnds(a: string, final: string, e: nat)
    requires e < |final| && |a| + e > |final| && AgreesBefore(a, final, e)
    ensures var n := |final| - e; OverlaidTail(a, final, e) == a[..|a| - n] + final
  {
    var n := |final| - e;
    assert final == final[..n] + final[n..] && a == a[..|a| - n] + a[|a| - n..];
    assert a[..|a| - n] + final[..n] + final[n..] == a[..|a| - n] + (final[..n] + final[n..]);
  }

  lemma ConcatFirst(s: seq<string>)
    requires s != []
    ensures Concat(s) == s[0] + Concat(s[1..])
  {}

  lemma {:induction false} ConcatLast(s: seq<string>)
    requires s != []
    ensures Concat(s) == Concat(s[..|s| - 1]) + s[|s| - 1]
    decreases |s|
  {
    if |s| == 1 {
      assert s[..0] == [] && s[1..] == [];
    } else {
      ConcatLast(s[1..]);
      assert s[..|s| - 1][1..] == s[1..][..|s| - 2];
    }
  }

  /** A value accepted although there is no room in it for all the pieces. */
  ghost predicate TooShort(v: string, f: Pattern) {
    Accepts(v, f) && |v| < |f.initial| + |Concat(NonEmpty(f.anys))| + |f.final|
  }

  lemma OverlaidBare(f: Pattern, p: nat) returns (v: string)
    requires NonEmpty(f.anys) == [] && p < |f.initial| <= p + |f.final| && AgreesFrom(f.initial, f.final, p)
    ensures TooShort(v, f)
  {
    v := OverlaidHead(f.initial, f.final, p);
    HeadHoldsBoth(f.initial, f.final, p, "");
    assert v + "" == v;
    OnlyNonEmptyMatter(v, f.anys, 0, |v|);
  }

  lemma OverlaidFirst(f: Pattern, p: nat) returns (v: string)
    requires NonEmpty(f.anys) != [] && p < |f.initial| && AgreesFrom(f.initial, NonEmpty(f.anys)[0], p)
    ensures TooShort(v, f)
  {
    var s := NonEmpty(f.anys);
    assert s[0] in s;
    var head, rest := OverlaidHead(f.initial, s[0], p), Concat(s[1..]);
    v := head + rest + f.final;
    assert v == head + (rest + f.final);
    HeadHoldsBoth(f.initial, s[0], p, rest + f.final);
    PlacedInARow(head, s[1..], f.final, [], 0);
    assert s[1..] + [] == s[1..];
    PlacedEarlier(v, s[1..], p + |s[0]|, |head|, |v|);
    OnlyNonEmptyMatter(v, f.anys, 0, |v|);
    OccursBetween(head + rest, f.final, "");
    assert v + "" == v;
  }

  lemma OverlaidLast(f: Pattern, e: nat) returns (v: string)
    requires NonEmpty(f.anys) != [] && e < |f.final|
    requires AgreesBefore(NonEmpty(f.anys)[|NonEmpty(f.anys)| - 1], f.final, e)
    ensures TooShort(v, f)
  {
    var s := NonEmpty(f.anys);
    var most, last := s[..|s| - 1], s[|s| - 1];
    var tail := OverlaidTail(last, f.final, e);
    v := f.initial + Concat(most) + tail;
    TailHoldsBoth(f.initial + Concat(most), last, f.final, e);
    assert most + [last] == s;
    InARowEndsWith(f.initial, most, tail, last, |v| - e - |last|);
    OnlyNonEmptyMatter(v, f.anys, 0, |v|);
    ConcatLast(s);
  }

  lemma InARowEndsWith(initial: string, most: seq<string>, tail: string, last: string, q: nat)
    requires var v := initial + Concat(most) + tail; |initial + Concat(most)| <= q && Occurs(v, last, q)
    ensures var v := initial + Concat(most) + tail; StartsWith(v, initial) && Placed(v, most + [last], 0, |v|)
  {
    var v := initial + Concat(most) + tail;
    PlacedInARow(initial, most, tail, [last], q);
    PlacedEarlier(v, most + [last], 0, |initial|, |v|);
  }

  lemma AmbiguousOverAccepts(f: Pattern) returns (v: string)
    requires Ambiguous(f)
    ensures Accepts(v, f) && !Standard(v, f)
  {
    var s := NonEmpty(f.anys);
    if s == [] {
      var p :| 0 <= p < |f.initial| && |f.initial| <= p + |f.final| && AgreesFrom(f.initial, f.final, p);
      v := OverlaidBare(f, p);
    } else if CanLieOver(f.initial, s[0]) {
      var p :| 0 <= p < |f.initial| && AgreesFrom(f.initial, s[0], p);
      v := OverlaidFirst(f, p);
    } else {
      var e :| 0 <= e < |f.final| && AgreesBefore(s[|s| - 1], f.final, e);
      v := OverlaidLast(f, e);
    }
    if Standard(v, f) { StandardTakesRoom(v, f); }
  }

  /** The search decides a filter as the standard does, on every value, exactly when no piece next to the
      prefix or the suffix can lie over it. */
  lemma ExactIffUnambiguous(f: Pattern)
    ensures (forall v :: Accepts(v, f) <==> Standard(v, f)) <==> !Ambiguous(f)
  {
    forall v ensures Standard(v, f) ==> Accepts(v, f) {
      if Standard(v, f) { NeverMisses(v, f); }
    }
    if Ambiguous(f) {
      var v := AmbiguousOverAccepts(f);
    } else {
      forall v ensures Accepts(v, f) ==> Standard(v, f) {
        if Accepts(v, f) { UnambiguousIsExact(v, f); }
      }
    }
  }

  /** The smallest case: a one-character value meets a filter with that prefix and that suffix, whatever the
      case either is written in. */
  lemma OneCharacterTwice(lower: string -> string, value: string, prefix: string, suffix: string)
    requires |lower(value)| == 1 && lower(value) == lower(prefix) == lower(suffix)
    ensures var f := Collect([Initial(prefix), Final(suffix)], lower);
            Accepts(lower(value), f) && !Standard(lower(value), f)
  {
    var pieces := [Initial(prefix), Final(suffix)];
    assert pieces[..1] == [Initial(prefix)] && pieces[..1][..0] == [];
    assert Collect(pieces[..1], lower) == Pattern(lower(prefix), [], "");
  }
}
