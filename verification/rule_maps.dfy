/** A policy's rules: an ordered map from directive name to a list of values,
    written as an association list whose keys are distinct (the keys of a PHP
    array), together with the PHP array operations the engine applies to it. */
module RuleMaps {
  import opened Wrappers
  import opened Text

  datatype Entry = Entry(directive: string, values: seq<string>)

  function Keys(r: seq<Entry>): (ks: seq<string>)
    ensures |ks| == |r| && forall i | 0 <= i < |r| :: ks[i] == r[i].directive
  {
    seq(|r|, i requires 0 <= i < |r| => r[i].directive)
  }

  type Rules = r: seq<Entry> | NoDup(Keys(r)) witness []

  function Tail(r: Rules): (t: Rules)
    requires r != []
    ensures t == r[1..] && Keys(r) == [r[0].directive] + Keys(t)
  {
    assert Keys(r) == [r[0].directive] + Keys(r[1..]);
    r[1..]
  }

  /** The values stored under `d`, if `d` is a key. */
  function Lookup(r: Rules, d: string): (o: Option<seq<string>>)
    ensures o.Some? <==> d in Keys(r)
    ensures forall i | 0 <= i < |r| && r[i].directive == d :: o == Some(r[i].values)
  {
    var i := IndexOf(Keys(r), d);
    if i < |r| then Some(r[i].values) else None
  }

  /** `$rules[d] = vs`: an existing key keeps its position, a new key goes last. */
  function Put(r: Rules, d: string, vs: seq<string>): (r': Rules)
    ensures d in Keys(r) ==> Keys(r') == Keys(r)
    ensures d !in Keys(r) ==> Keys(r') == Keys(r) + [d]
    ensures Lookup(r', d) == Some(vs)
    ensures forall d' | d' != d :: Lookup(r', d') == Lookup(r, d')
  {
    var i := IndexOf(Keys(r), d);
    if i < |r| then
      var r' := r[i := Entry(d, vs)];
      assert Keys(r') == Keys(r);
      PutLookup(r, r', d);
      r'
    else
      var r' := r + [Entry(d, vs)];
      assert Keys(r') == Keys(r) + [d];
      PutLookup(r, r', d);
      r'
  }

  lemma PutLookup(r: Rules, r': Rules, d: string)
    requires |r| <= |r'| && forall i | 0 <= i < |r| && r[i].directive != d :: r'[i] == r[i]
    requires forall i | |r| <= i < |r'| :: r'[i].directive == d
    requires forall i | 0 <= i < |r| && r[i].directive == d :: r'[i].directive == d
    ensures forall d' | d' != d :: Lookup(r', d') == Lookup(r, d')
  {
    forall d' | d' != d
      ensures Lookup(r', d') == Lookup(r, d')
    {
      if d' in Keys(r) {
        var i := IndexOf(Keys(r), d');
        assert r'[i] == r[i];
        assert Keys(r')[i] == d';
      }
      if d' in Keys(r') {
        var i := IndexOf(Keys(r'), d');
        assert r[i] == r'[i];
      }
    }
  }

  /** Adds `vs` after the values already under `d` (a new key starts empty). */
  function Append(r: Rules, d: string, vs: seq<string>): (r': Rules)
    ensures Lookup(r', d) == Some(Lookup(r, d).GetOr([]) + vs)
    ensures forall d' | d' != d :: Lookup(r', d') == Lookup(r, d')
    ensures Keys(r') == Keys(r) + (if d in Keys(r) then [] else [d])
  {
    Put(r, d, Lookup(r, d).GetOr([]) + vs)
  }

  /** `array_merge_recursive($a, $b)` for rules: the entries of `b` in order, each
      appended to the list already under its key or added as a new last key. */
  function Merge(a: Rules, b: Rules): Rules
    decreases |b|
  {
    if b == [] then a
    else Merge(Append(a, b[0].directive, b[0].values), Tail(b))
  }

  /** The lookup a merge produces: shared keys concatenate, others pass through. */
  function MergedValues(x: Option<seq<string>>, y: Option<seq<string>>): Option<seq<string>> {
    match (x, y)
    case (Some(u), Some(w)) => Some(u + w)
    case (Some(_), None) => x
    case (None, _) => y
  }

  /** The keys of `ks` that are not in `existing`, in order. */
  function NewKeys(ks: seq<string>, existing: seq<string>): (r: seq<string>)
    ensures forall k :: k in r <==> k in ks && k !in existing
  {
    if ks == [] then []
    else (if ks[0] in existing then [] else [ks[0]]) + NewKeys(ks[1..], existing)
  }

  lemma {:induction false} MergeLookup(a: Rules, b: Rules, d: string)
    ensures Lookup(Merge(a, b), d) == MergedValues(Lookup(a, d), Lookup(b, d))
    decreases |b|
  {
    if b != [] {
      var e := b[0];
      var a1 := Append(a, e.directive, e.values);
      MergeLookup(a1, Tail(b), d);
      if d == e.directive {
        assert Lookup(Tail(b), d) == None;
        assert Lookup(b, d) == Some(e.values);
        assert [] + e.values == e.values;
      } else {
        assert Lookup(b, d) == Lookup(Tail(b), d);
      }
    }
  }

  /** Existing keys keep their order; new keys follow in the order of `b`. */
  lemma {:induction false} MergeKeys(a: Rules, b: Rules)
    ensures Keys(Merge(a, b)) == Keys(a) + NewKeys(Keys(b), Keys(a))
    decreases |b|
  {
    if b != [] {
      var e := b[0];
      var a1 := Append(a, e.directive, e.values);
      MergeKeys(a1, Tail(b));
      assert Keys(b) == [e.directive] + Keys(Tail(b));
      if e.directive in Keys(a) {
        assert NewKeys(Keys(b), Keys(a)) == NewKeys(Keys(Tail(b)), Keys(a));
      } else {
        assert e.directive !in Keys(Tail(b));
        NewKeysSkip(Keys(Tail(b)), Keys(a), e.directive);
        assert NewKeys(Keys(b), Keys(a)) == [e.directive] + NewKeys(Keys(Tail(b)), Keys(a));
      }
    }
  }

  lemma {:induction false} NewKeysSkip(ks: seq<string>, existing: seq<string>, x: string)
    requires x !in ks
    ensures NewKeys(ks, existing + [x]) == NewKeys(ks, existing)
  {
    if ks != [] {
      NewKeysSkip(ks[1..], existing, x);
    }
  }

  /** `array_diff($x, $y)`: the values of `x` that do not occur in `y`, in order,
      duplicates kept. */
  function Minus(x: seq<string>, y: seq<string>): seq<string> {
    if x == [] then []
    else (if x[0] in y then [] else [x[0]]) + Minus(x[1..], y)
  }

  /** A value survives iff it was in `x` and is not being removed, as often as
      it occurred in `x`. */
  lemma {:induction false} MinusCount(x: seq<string>, y: seq<string>)
    ensures forall v :: v in Minus(x, y) <==> v in x && v !in y
    ensures forall v :: multiset(Minus(x, y))[v] == if v in y then 0 else multiset(x)[v]
  {
    if x != [] {
      MinusCount(x[1..], y);
      assert x == [x[0]] + x[1..];
    }
  }

  /** The difference distributes over concatenation, so survivors keep their order. */
  lemma {:induction false} MinusConcat(x: seq<string>, z: seq<string>, y: seq<string>)
    ensures Minus(x + z, y) == Minus(x, y) + Minus(z, y)
  {
    if x != [] {
      var xz := x + z;
      assert xz[0] == x[0] && xz[1..] == x[1..] + z;
      MinusConcat(x[1..], z, y);
      assert Minus(xz, y) == (if x[0] in y then [] else [x[0]]) + Minus(xz[1..], y);
      assert Minus(x, y) == (if x[0] in y then [] else [x[0]]) + Minus(x[1..], y);
    } else {
      assert x + z == z;
    }
  }

  /** `applyPolicyDiff`: every listed key that is present loses the listed values;
      absent keys are ignored. */
  function Diff(r: Rules, removal: Rules): Rules
    decreases |removal|
  {
    if removal == [] then r
    else
      var e := removal[0];
      var current := Lookup(r, e.directive);
      var r1 := if current.Some? then Put(r, e.directive, Minus(current.value, e.values)) else r;
      Diff(r1, Tail(removal))
  }

  /** The lookup after a diff: listed and present keys lose the listed values. */
  function DiffedValues(x: Option<seq<string>>, y: Option<seq<string>>): Option<seq<string>> {
    if x.Some? && y.Some? then Some(Minus(x.value, y.value)) else x
  }

  lemma {:induction false} DiffKeys(r: Rules, removal: Rules)
    ensures Keys(Diff(r, removal)) == Keys(r)
    decreases |removal|
  {
    if removal != [] {
      var e := removal[0];
      var current := Lookup(r, e.directive);
      var r1 := if current.Some? then Put(r, e.directive, Minus(current.value, e.values)) else r;
      DiffKeys(r1, Tail(removal));
    }
  }

  lemma {:induction false} DiffLookup(r: Rules, removal: Rules, d: string)
    ensures Lookup(Diff(r, removal), d) == DiffedValues(Lookup(r, d), Lookup(removal, d))
    decreases |removal|
  {
    if removal != [] {
      var e := removal[0];
      var current := Lookup(r, e.directive);
      var r1 := if current.Some? then Put(r, e.directive, Minus(current.value, e.values)) else r;
      DiffLookup(r1, Tail(removal), d);
      if d == e.directive {
        assert Lookup(Tail(removal), d) == None;
      } else {
        assert Lookup(removal, d) == Lookup(Tail(removal), d);
      }
    }
  }

  /** `array_unique`: the first occurrence of every value, in order. */
  function Dedup(s: seq<string>): (r: seq<string>)
    ensures NoDup(r)
    ensures forall v :: v in r <==> v in s
    decreases |s|
  {
    if s == [] then []
    else
      var t := Dedup(s[..|s| - 1]);
      var last := s[|s| - 1];
      assert s == s[..|s| - 1] + [last];
      if last in t then t else t + [last]
  }

  /** Survivors appear in the order of their first occurrences in `s`. */
  lemma {:induction false} DedupOrder(s: seq<string>)
    ensures forall i, j | 0 <= i < j < |Dedup(s)| :: IndexOf(s, Dedup(s)[i]) < IndexOf(s, Dedup(s)[j])
    decreases |s|
  {
    if s != [] {
      var p := s[..|s| - 1];
      var last := s[|s| - 1];
      var t := Dedup(p);
      DedupOrder(p);
      assert s == p + [last];
      forall v | v in p
        ensures IndexOf(s, v) == IndexOf(p, v)
      {
        IndexOfPrefix(p, [last], v);
      }
      if last !in p {
        IndexOfConcat(p, [last], last);
      }
    }
  }

  lemma {:induction false} IndexOfPrefix(p: seq<string>, q: seq<string>, v: string)
    requires v in p
    ensures IndexOf(p + q, v) == IndexOf(p, v)
  {
    assert (p + q)[0] == p[0];
    if p[0] != v {
      assert (p + q)[1..] == p[1..] + q;
      IndexOfPrefix(p[1..], q, v);
    }
  }

  /** A list without duplicates is left as it is. */
  lemma {:induction false} DedupOfDistinct(s: seq<string>)
    requires NoDup(s)
    ensures Dedup(s) == s
    decreases |s|
  {
    if s != [] {
      var p := s[..|s| - 1];
      assert NoDup(p);
      DedupOfDistinct(p);
      assert s[|s| - 1] !in p;
    }
  }

  /** `array_walk` with a check that may rewrite each list or abort: the lists are
      checked in map order, the first failure is the result, and otherwise every
      key holds its rewritten list. */
  function Walk<E>(r: Rules, check: (string, seq<string>) -> Result<seq<string>, E>): (res: Result<Rules, E>)
    ensures res.Success? ==> Keys(res.value) == Keys(r)
    decreases |r|
  {
    if r == [] then Success([])
    else
      var head := check(r[0].directive, r[0].values);
      if head.Failure? then Failure(head.error)
      else
        var rest := Walk(Tail(r), check);
        if rest.Failure? then rest
        else Success(Cons(Entry(r[0].directive, head.value), rest.value, r))
  }

  /** An entry in front of rules with the same keys as `r`'s tail. */
  function Cons(e: Entry, rest: Rules, r: Rules): (out: Rules)
    requires r != [] && e.directive == r[0].directive && Keys(rest) == Keys(r[1..])
    ensures out == [e] + rest && Keys(out) == Keys(r)
  {
    assert Keys([e] + rest) == [e.directive] + Keys(rest);
    assert Keys(r) == [r[0].directive] + Keys(r[1..]);
    [e] + rest
  }

  lemma WalkUnfold<E>(r: Rules, check: (string, seq<string>) -> Result<seq<string>, E>)
    requires r != []
    ensures var v := check(r[0].directive, r[0].values);
      v.Failure? ==> Walk(r, check) == Failure(v.error)
    ensures var v := check(r[0].directive, r[0].values);
      v.Success? && Walk(Tail(r), check).Failure? ==> Walk(r, check) == Failure(Walk(Tail(r), check).error)
    ensures var v := check(r[0].directive, r[0].values);
      v.Success? && Walk(Tail(r), check).Success? ==>
        Walk(r, check) == Success([Entry(r[0].directive, v.value)] + Walk(Tail(r), check).value)
  {
  }

  lemma {:induction false} WalkSucceeds<E>(r: Rules, check: (string, seq<string>) -> Result<seq<string>, E>)
    ensures Walk(r, check).Success? <==> forall i | 0 <= i < |r| :: check(r[i].directive, r[i].values).Success?
    decreases |r|
  {
    if r != [] {
      WalkUnfold(r, check);
      WalkSucceeds(Tail(r), check);
      assert forall i | 1 <= i < |r| :: r[i] == Tail(r)[i - 1];
    }
  }

  lemma {:induction false} WalkValues<E>(r: Rules, check: (string, seq<string>) -> Result<seq<string>, E>)
    requires Walk(r, check).Success?
    ensures forall i | 0 <= i < |r| ::
      check(r[i].directive, r[i].values).Success? &&
      Walk(r, check).value[i] == Entry(r[i].directive, check(r[i].directive, r[i].values).value)
    decreases |r|
  {
    if r != [] {
      WalkUnfold(r, check);
      WalkValues(Tail(r), check);
      WalkValuesShift(r, Tail(r), Walk(r, check).value, Walk(Tail(r), check).value, check);
    }
  }

  /** The per-entry result of the tail, moved one place to the right. */
  lemma WalkValuesShift<E>(r: seq<Entry>, t: seq<Entry>, out: seq<Entry>, rest: seq<Entry>,
                           check: (string, seq<string>) -> Result<seq<string>, E>)
    requires r != [] && t == r[1..] && check(r[0].directive, r[0].values).Success?
    requires out == [Entry(r[0].directive, check(r[0].directive, r[0].values).value)] + rest
    requires |rest| == |t|
    requires forall i | 0 <= i < |t| ::
      check(t[i].directive, t[i].values).Success? &&
      rest[i] == Entry(t[i].directive, check(t[i].directive, t[i].values).value)
    ensures forall i | 0 <= i < |r| ::
      check(r[i].directive, r[i].values).Success? &&
      out[i] == Entry(r[i].directive, check(r[i].directive, r[i].values).value)
  {
    forall i | 1 <= i < |r|
      ensures check(r[i].directive, r[i].values).Success?
      ensures out[i] == Entry(r[i].directive, check(r[i].directive, r[i].values).value)
    {
      assert r[i] == t[i - 1] && out[i] == rest[i - 1];
    }
  }

  /** Whether `check` accepts an entry. */
  function Passes<E>(check: (string, seq<string>) -> Result<seq<string>, E>): Entry -> bool {
    (e: Entry) => check(e.directive, e.values).Success?
  }

  /** A failed walk reports the error of the first entry `check` rejects; every
      entry before it passes. */
  lemma {:induction false} WalkFirstError<E>(r: Rules, check: (string, seq<string>) -> Result<seq<string>, E>)
    requires Walk(r, check).Failure?
    ensures var i := FirstFailure(r, Passes(check));
      i < |r| && check(r[i].directive, r[i].values) == Failure(Walk(r, check).error)
    decreases |r|
  {
    WalkUnfold(r, check);
    if check(r[0].directive, r[0].values).Success? {
      var t := Tail(r);
      WalkFirstError(t, check);
      assert FirstFailure(r, Passes(check)) == 1 + FirstFailure(t, Passes(check));
    }
  }

  lemma WalkSingle<E>(d: string, vs: seq<string>, check: (string, seq<string>) -> Result<seq<string>, E>)
    requires check(d, vs).Success?
    ensures Walk([Entry(d, vs)], check) == Success([Entry(d, check(d, vs).value)])
  {
    var r: Rules := [Entry(d, vs)];
    assert Tail(r) == [];
    assert Walk(Tail(r), check) == Success([]);
    WalkUnfold(r, check);
    assert [Entry(d, check(d, vs).value)] + [] == [Entry(d, check(d, vs).value)];
  }
}
