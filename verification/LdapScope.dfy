/** Distinguished names and search scopes (_norm, _parent, in_scope in rangefinder/facades/ldap.py). */
module LdapScope {
  import opened Prelude
  import opened Pieces

  /** str.lower and the characters str.strip removes. */
  datatype Text = Text(lower: string -> string, isSpace: char -> bool)

  /** Lower-casing neither makes nor removes a comma. */
  ghost predicate KeepsCommas(t: Text) {
    forall s :: ',' in t.lower(s) <==> ',' in s
  }

  function StripLeft(t: Text, s: string): (r: string)
    ensures ',' !in s ==> ',' !in r
  {
    if s != "" && t.isSpace(s[0]) then StripLeft(t, s[1..]) else s
  }

  function StripRight(t: Text, s: string): (r: string)
    ensures ',' !in s ==> ',' !in r
  {
    if s != "" && t.isSpace(s[|s| - 1]) then StripRight(t, s[..|s| - 1]) else s
  }

  function StripEach(t: Text, parts: seq<string>): (r: seq<string>)
    ensures |r| == |parts|
    ensures (forall p :: p in parts ==> ',' !in p) ==> forall p :: p in r ==> ',' !in p
  {
    if parts == [] then [] else [StripRight(t, StripLeft(t, parts[0]))] + StripEach(t, parts[1..])
  }

  function Norm(t: Text, dn: string): string {
    Join(StripEach(t, Split(t.lower(dn), ',')), ",")
  }

  /** What follows the first comma; nothing when there is none. */
  function After(s: string): (r: string)
    ensures |r| <= |s|
  {
    if s == "" then "" else if s[0] == ',' then s[1..] else After(s[1..])
  }

  function Parent(t: Text, dn: string): string {
    if ',' in dn then After(Norm(t, dn)) else ""
  }

  datatype Scope = Base | OneLevel | Subtree

  predicate InScope(t: Text, dn: string, base: string, scope: Scope) {
    var e, b := Norm(t, dn), Norm(t, base);
    match scope
    case Base => e == b
    case OneLevel => Parent(t, dn) == b
    case Subtree => e == b || EndsWith(e, "," + b)
  }

  // ---------------------------------------------------------------- what the scopes mean

  /** `n` steps towards the root of the tree. */
  function Climb(name: string, n: nat): string
    decreases n
  {
    if n == 0 then name else Climb(After(name), n - 1)
  }

  /** The step to the parent never fails: a name with a comma still has one when normalised. */
  lemma NormKeepsCommas(t: Text, dn: string)
    requires KeepsCommas(t)
    ensures ',' in Norm(t, dn) <==> ',' in dn
  {
    var parts := Split(t.lower(dn), ',');
    SplitIsPieces(t.lower(dn), ',');
    JoinHas(parts, ',');
    JoinHas(StripEach(t, parts), ',');
  }

  /** Some climb, the empty one included, leads to `base`. */
  ghost predicate IsBelow(name: string, base: string) {
    exists n: nat :: Climb(name, n) == base
  }

  /** `name` ends in a comma and `base`. */
  predicate EndsIn(name: string, base: string) {
    |base| < |name| && name[|name| - |base| - 1] == ',' && name[|name| - |base|..] == base
  }

  lemma EndsInIsSuffix(name: string, base: string)
    ensures EndsIn(name, base) <==> EndsWith(name, "," + base)
  {
    if |base| < |name| {
      var k := |name| - |base| - 1;
      assert name[k..] == [name[k]] + name[k + 1..];
    }
  }

  lemma {:induction false} AfterIsSuffix(name: string)
    requires ',' in name
    ensures |After(name)| < |name| && name[|name| - |After(name)|..] == After(name)
    ensures name[|name| - |After(name)| - 1] == ','
  {
    if name[0] != ',' {
      AfterIsSuffix(name[1..]);
      var k := |name| - |After(name)|;
      assert name[k..] == name[1..][k - 1..];
    }
  }

  lemma {:induction false} AfterNothing(name: string)
    requires ',' !in name
    ensures After(name) == ""
  {
    if name != "" { AfterNothing(name[1..]); }
  }

  lemma {:induction false} ClimbsEndAlike(name: string, base: string, n: nat)
    requires base != "" && Climb(name, n) == base
    ensures name == base || EndsIn(name, base)
    decreases n
  {
    if n > 0 {
      ClimbsEndAlike(After(name), base, n - 1);
      SuffixOfAfter(name, base);
    }
  }

  /** A name whose parent ends in `base` does so too. */
  lemma SuffixOfAfter(name: string, base: string)
    requires base != "" && (After(name) == base || EndsIn(After(name), base))
    ensures EndsIn(name, base)
  {
    var up := After(name);
    if ',' !in name { AfterNothing(name); }
    AfterIsSuffix(name);
    if up != base { SuffixOfSuffix(name, up, base); }
  }

  lemma SuffixOfSuffix(name: string, up: string, base: string)
    requires |up| <= |name| && name[|name| - |up|..] == up && |base| < |up|
    ensures EndsIn(name, base) <==> EndsIn(up, base)
  {
    var j, k := |name| - |up|, |up| - |base|;
    assert name[j + k..] == name[j..][k..];
    assert name[j + k - 1] == name[j..][k - 1];
  }

  lemma {:induction false} SuffixIsClimbed(name: string, base: string) returns (n: nat)
    requires EndsIn(name, base)
    ensures ClimbsTo(name, base, n)
    decreases |name|
  {
    var up := FirstStep(name, base);
    if up == base {
      ClimbNone(base);
      ClimbOnce(name, up, base, 0);
      n := 1;
    } else {
      var m := SuffixIsClimbed(up, base);
      ClimbOnce(name, up, base, m);
      n := m + 1;
    }
  }

  lemma ClimbNone(base: string)
    ensures ClimbsTo(base, base, 0)
  {}

  lemma ClimbOnce(name: string, up: string, base: string, m: nat)
    requires up == After(name) && ClimbsTo(up, base, m)
    ensures ClimbsTo(name, base, m + 1)
  {}

  predicate ClimbsTo(name: string, base: string, n: nat) {
    Climb(name, n) == base
  }

  /** One step up from a name that ends in `base` leads to it, or to a shorter name that ends in it. */
  lemma FirstStep(name: string, base: string) returns (up: string)
    requires EndsIn(name, base)
    ensures up == After(name) && |up| < |name| && (up == base || EndsIn(up, base))
  {
    up := After(name);
    FirstComma(name, |name| - |base| - 1);
    AfterIsSuffix(name);
    if |After(name)| > |base| { SuffixOfSuffix(name, After(name), base); }
  }

  /** The parent starts after the first comma: no later than after any other. */
  lemma {:induction false} FirstComma(name: string, k: nat)
    requires k < |name| && name[k] == ','
    ensures |After(name)| >= |name| - k - 1
    decreases |name|
  {
    if name[0] != ',' { FirstComma(name[1..], k - 1); }
  }

  /** The three scopes count steps towards the root: none, one, and any number; the last only from a base that
      is not empty.  From the empty base, where every climb ends, a subtree search finds no more than the
      names that end in a comma and the empty one. */
  lemma ScopesCountSteps(t: Text, dn: string, base: string)
    requires KeepsCommas(t)
    ensures InScope(t, dn, base, Base) <==> Climb(Norm(t, dn), 0) == Norm(t, base)
    ensures InScope(t, dn, base, OneLevel) <==> Climb(Norm(t, dn), 1) == Norm(t, base)
    ensures Norm(t, base) != "" ==>
              (InScope(t, dn, base, Subtree) <==> IsBelow(Norm(t, dn), Norm(t, base)))
    ensures Norm(t, base) == "" ==>
              (InScope(t, dn, base, Subtree) <==> Norm(t, dn) == "" || EndsWith(Norm(t, dn), ","))
  {
    var e, b := Norm(t, dn), Norm(t, base);
    NormKeepsCommas(t, dn);
    if ',' !in e { AfterNothing(e); }
    assert Climb(e, 1) == Climb(After(e), 0);
    if b != "" {
      SubtreeIsBelow(e, b);
    } else {
      assert "," + b == ",";
    }
  }

  lemma SubtreeIsBelow(e: string, b: string)
    requires b != ""
    ensures e == b || EndsWith(e, "," + b) <==> IsBelow(e, b)
  {
    EndsInIsSuffix(e, b);
    if IsBelow(e, b) {
      var n: nat :| Climb(e, n) == b;
      ClimbsEndAlike(e, b, n);
    }
    if e == b {
      assert Climb(e, 0) == b;
    } else if EndsIn(e, b) {
      var n := SuffixIsClimbed(e, b);
    }
  }

  /** Every name is below the empty one. */
  lemma {:induction false} EveryClimbEnds(name: string) returns (n: nat)
    ensures ClimbsTo(name, "", n)
    decreases |name|
  {
    if name == "" {
      n := 0;
    } else if ',' !in name {
      AfterNothing(name);
      ClimbNone("");
      ClimbOnce(name, "", "", 0);
      n := 1;
    } else {
      AfterIsSuffix(name);
      var m := EveryClimbEnds(After(name));
      ClimbOnce(name, After(name), "", m);
      n := m + 1;
    }
  }

  lemma EndsInComma(name: string)
    ensures EndsWith(name, ",") ==> ',' in name
  {
    if EndsWith(name, ",") { assert name[|name| - 1..][0] == ','; }
  }

  /** Subtree search finds, for every name, exactly what lies below the base when the base is not empty, and
      only then: `plain` is any name without a comma that is not blank. */
  lemma SubtreeIsExactIff(t: Text, base: string, plain: string)
    requires KeepsCommas(t) && Norm(t, plain) != "" && ',' !in plain
    ensures (forall dn :: InScope(t, dn, base, Subtree) <==> IsBelow(Norm(t, dn), Norm(t, base)))
            <==> Norm(t, base) != ""
  {
    if Norm(t, base) == "" {
      var e := Norm(t, plain);
      ScopesCountSteps(t, plain, base);
      NormKeepsCommas(t, plain);
      EndsInComma(e);
      var n := EveryClimbEnds(e);
      assert IsBelow(e, "");
      assert !InScope(t, plain, base, Subtree);
    } else {
      forall dn ensures InScope(t, dn, base, Subtree) <==> IsBelow(Norm(t, dn), Norm(t, base)) {
        ScopesCountSteps(t, dn, base);
      }
    }
  }
}
