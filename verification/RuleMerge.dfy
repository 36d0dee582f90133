/** The inheritance of configured rules: rule arrays with ids, merged in place. */
module RuleMerge {
  import opened Names
  import opened HeaderEdit
  import opened Rules
  import opened RuleEngine
  import opened Inheritance
  import opened Bitmaps

  /** A rule array (`ngx_array_t`). A level without rules shares the array of its parent. */
  class RuleArray {
    var elts: seq<HeaderVal>

    constructor ()
      ensures elts == []
    {
      elts := [];
    }
  }

  function Elts(a: RuleArray?): seq<HeaderVal>
    reads a
  {
    if a == null then [] else a.elts
  }

  /** A level's array and its counter. */
  ghost predicate Tallied(a: RuleArray?, cnt: nat)
    reads a
  {
    Numbered(Elts(a)) && cnt == |Elts(a)|
  }

  // ---------- the pruned rules, with their ids ----------

  function PrunedVals(names: set<string>, hs: seq<HeaderVal>): seq<HeaderVal> {
    if hs == [] then []
    else PrunedVals(names, hs[..|hs| - 1]) + if IsLocked(hs[|hs| - 1].rule, names) then [] else [hs[|hs| - 1]]
  }

  lemma {:induction false} RulesOfConcat(a: seq<HeaderVal>, b: seq<HeaderVal>)
    ensures RulesOf(a + b) == RulesOf(a) + RulesOf(b)
  {
  }

  lemma {:induction false} PrunedValsIs(names: set<string>, hs: seq<HeaderVal>)
    ensures RulesOf(PrunedVals(names, hs)) == Pruned(names, RulesOf(hs))
  {
    if hs != [] {
      var front, last := hs[..|hs| - 1], hs[|hs| - 1];
      PrunedValsIs(names, front);
      assert hs == front + [last];
      RulesOfConcat(front, [last]);
      PrunedConcat(names, RulesOf(front), [last.rule]);
      RulesOfConcat(PrunedVals(names, front), if IsLocked(last.rule, names) then [] else [last]);
      assert RulesOf([last]) == [last.rule];
      PrunedOne(names, last.rule);
    }
  }

  lemma {:induction false} PrunedOne(names: set<string>, r: Rule)
    ensures Pruned(names, [r]) == if IsLocked(r, names) then [] else [r]
  {
  }

  lemma {:induction false} PrunedValsStep(names: set<string>, hs: seq<HeaderVal>, j: nat)
    requires j < |hs|
    ensures PrunedVals(names, hs[..j + 1]) == PrunedVals(names, hs[..j]) + if IsLocked(hs[j].rule, names) then []
            else [hs[j]]
  {
    assert hs[..j + 1][..j] == hs[..j];
  }

  lemma {:induction false} PrunedValsGrow(names: set<string>, hs: seq<HeaderVal>, j: nat)
    requires j <= |hs|
    ensures |PrunedVals(names, hs[..j])| <= |PrunedVals(names, hs)|
    decreases |hs| - j
  {
    if j < |hs| {
      PrunedValsStep(names, hs, j);
      PrunedValsGrow(names, hs, j + 1);
    } else {
      assert hs[..j] == hs;
    }
  }

  /** Some rule among the first `i` switches off `name`. */
  ghost predicate SwitchedOff(hs: seq<HeaderVal>, i: nat, name: string) {
    exists m :: 0 <= m < i && m < |hs| && Disables(hs[m].rule) && Lower(hs[m].rule.key) == name
  }

  lemma {:induction false} SwitchedOffNames(hs: seq<HeaderVal>, name: string)
    ensures SwitchedOff(hs, |hs|, name) <==> name in DisabledNames(RulesOf(hs))
  {
    NamesIn(RulesOf(hs), name);
    if name in DisabledNames(RulesOf(hs)) {
      var m :| 0 <= m < |hs| && Disables(RulesOf(hs)[m]) && Lower(RulesOf(hs)[m].key) == name;
      assert Disables(hs[m].rule) && Lower(hs[m].rule.key) == name;
    }
    if SwitchedOff(hs, |hs|, name) {
      var m :| 0 <= m < |hs| && Disables(hs[m].rule) && Lower(hs[m].rule.key) == name;
      assert Disables(RulesOf(hs)[m]);
    }
  }

  lemma {:induction false} NamesIn(rules: seq<Rule>, name: string)
    ensures name in DisabledNames(rules)
            <==> exists m :: 0 <= m < |rules| && Disables(rules[m]) && Lower(rules[m].key) == name
  {
    if rules != [] {
      NamesIn(rules[1..], name);
      if m :| 0 <= m < |rules[1..]| && Disables(rules[1..][m]) && Lower(rules[1..][m].key) == name {
        assert Disables(rules[m + 1]) && Lower(rules[m + 1].key) == name;
      }
      if m :| 0 <= m < |rules| && Disables(rules[m]) && Lower(rules[m].key) == name {
        if m > 0 {
          assert Disables(rules[1..][m - 1]) && Lower(rules[1..][m - 1].key) == name;
        }
      }
    }
  }

  // ---------- merging one array ----------

  /** The disable map after the first `i` child rules. */
  ghost predicate Disabled(map_: Bitmap, child: seq<HeaderVal>, i: nat, parent: seq<HeaderVal>)
    reads map_, map_.bits
  {
    && map_.Valid() && map_.size == |parent|
    && forall m: nat :: m < |parent| ==>
        (map_.Has(m) <==> !parent[m].rule.wildcard && SwitchedOff(child, i, Lower(parent[m].rule.key)))
  }

  /** The disable map marks exactly the parent rules of these names. */
  ghost predicate Marked(map_: Bitmap, parent: seq<HeaderVal>, names: set<string>)
    reads map_, map_.bits
  {
    && map_.Valid() && map_.size == |parent|
    && forall m: nat :: m < |parent| ==> (map_.Has(m) <==> IsLocked(parent[m].rule, names))
  }

  /** Marks the parent rules that child rule `i` switches off. */
  method DisableFor(map_: Bitmap, child: seq<HeaderVal>, i: nat, parent: seq<HeaderVal>)
    requires i < |child| && Numbered(parent) && Disabled(map_, child, i, parent)
    modifies map_.bits
    ensures Disabled(map_, child, i + 1, parent)
  {
    hide Bitmap.Has, Bitmap.Valid, Lower;
    var rule := child[i].rule;
    forall name: string ensures SwitchedOff(child, i + 1, name)
        <==> SwitchedOff(child, i, name) || (Disables(rule) && Lower(rule.key) == name) {
      SwitchedOffStep(child, i, name);
    }
    if rule.filter.Some? || rule.next || rule.wildcard {
      return;
    }
    hide SwitchedOff;
    for j := 0 to |parent|
      invariant map_.Valid()
      invariant forall m: nat :: m < |parent| ==>
                  (map_.Has(m) <==> !parent[m].rule.wildcard &&
                                    (SwitchedOff(child, i, Lower(parent[m].rule.key))
                                        || (m < j && Lower(rule.key) == Lower(parent[m].rule.key))))
    {
      if !parent[j].rule.wildcard && SameName(rule.key, parent[j].rule.key) {
        map_.Set(parent[j].id);
      }
    }
  }

  lemma {:induction false} SwitchedOffStep(child: seq<HeaderVal>, i: nat, name: string)
    requires i < |child|
    ensures SwitchedOff(child, i + 1, name)
            <==> SwitchedOff(child, i, name) || (Disables(child[i].rule) && Lower(child[i].rule.key) == name)
  {
    if m :| 0 <= m < i + 1 && m < |child| && Disables(child[m].rule) && Lower(child[m].rule.key) == name {
      assert m < i ==> SwitchedOff(child, i, name);
    }
    if SwitchedOff(child, i, name) {
      var m :| 0 <= m < i && m < |child| && Disables(child[m].rule) && Lower(child[m].rule.key) == name;
      assert m < i + 1;
    }
  }

  const BLANK := HeaderVal(Rule("", 0, Opcode.Set, false, false, None, "", Generic), 0)

  /** Appends the parent rules that are not marked: first counts them, then copies them. */
  method AppendKept(curr: RuleArray, map_: Bitmap, parent: seq<HeaderVal>, ghost names: set<string>)
    requires Marked(map_, parent, names) && Numbered(parent)
    modifies curr
    ensures curr.elts == old(curr.elts) + PrunedVals(names, parent)
  {
    hide Bitmap.Has, Bitmap.Valid, PrunedVals, IsLocked;
    var child := curr.elts;
    var count := 0;
    PrunedEmpty(names, parent);
    for j := 0 to |parent|
      invariant count == |PrunedVals(names, parent[..j])|
      modifies {}
    {
      PrunedValsStep(names, parent, j);
      var dropped := map_.IsSet(parent[j].id);
      if !dropped {
        count := count + 1;
      }
    }
    assert parent[..|parent|] == parent;
    curr.elts := child + seq(count, _ => BLANK);
    var pos := |child|;
    for j := 0 to |parent|
      invariant |curr.elts| == |child| + count && pos == |child| + |PrunedVals(names, parent[..j])| <= |curr.elts|
      invariant curr.elts[..pos] == child + PrunedVals(names, parent[..j])
      modifies curr
    {
      PrunedValsStep(names, parent, j);
      PrunedValsGrow(names, parent, j + 1);
      var dropped := map_.IsSet(parent[j].id);
      if !dropped {
        curr.elts := curr.elts[pos := parent[j]];
        pos := pos + 1;
      }
    }
    assert curr.elts == child + PrunedVals(names, parent);
  }

  /** Appends to the child's array the parent's rules that it does not switch off, and renumbers it. The parent's array
      is only read. */
  method MergeOneArray(curr: RuleArray, prev: RuleArray, prevCnt: nat, width: nat, stride: nat) returns (cnt: nat)
    requires curr != prev && Numbered(prev.elts) && prevCnt == |prev.elts| && 0 < stride <= width
    modifies curr
    ensures Tallied(curr, cnt)
    ensures RulesOf(curr.elts) == Inherit(RulesOf(old(curr.elts)), RulesOf(prev.elts))
  {
    hide Bitmap.Has, Bitmap.Valid, RulesOf, Inherit, PrunedVals, SwitchedOff, IsLocked, Disables;
    var child, parent := curr.elts, prev.elts;
    ghost var names := DisabledNames(RulesOf(child));
    var map_ := new Bitmap(width, stride, prevCnt);
    NoneDisabled(map_, child, parent);
    for i := 0 to |child|
      invariant Disabled(map_, child, i, parent) && curr.elts == child
      modifies map_.bits
    {
      DisableFor(map_, child, i, parent);
    }
    DisabledIsLocked(map_, child, parent);
    AppendKept(curr, map_, parent, names);
    ghost var merged := curr.elts;
    for i := 0 to |curr.elts|
      invariant |curr.elts| == |merged|
      invariant forall k :: 0 <= k < |merged| ==>
                curr.elts[k].rule == merged[k].rule && (k < i ==> curr.elts[k].id == k)
    {
      curr.elts := curr.elts[i := curr.elts[i].(id := i)];
    }
    MergedRules(child, parent, merged, curr.elts);
    cnt := |curr.elts|;
  }

  lemma {:induction false} NoneDisabled(map_: Bitmap, child: seq<HeaderVal>, parent: seq<HeaderVal>)
    requires map_.Valid() && map_.size == |parent| && forall id: nat :: !map_.Has(id)
    ensures Disabled(map_, child, 0, parent)
  {
    hide Bitmap.Has;
  }

  lemma {:induction false} DisabledIsLocked(map_: Bitmap, child: seq<HeaderVal>, parent: seq<HeaderVal>)
    requires Disabled(map_, child, |child|, parent)
    ensures Marked(map_, parent, DisabledNames(RulesOf(child)))
  {
    hide Bitmap.Has, SwitchedOff;
    forall m: nat | m < |parent| ensures map_.Has(m) <==> IsLocked(parent[m].rule, DisabledNames(RulesOf(child))) {
      SwitchedOffNames(child, Lower(parent[m].rule.key));
    }
  }

  lemma {:induction false} PrunedEmpty(names: set<string>, hs: seq<HeaderVal>)
    ensures PrunedVals(names, hs[..0]) == []
  {
  }

  lemma {:induction false} MergedRules(child: seq<HeaderVal>, parent: seq<HeaderVal>, merged: seq<HeaderVal>,
                                       elts: seq<HeaderVal>)
    requires merged == child + PrunedVals(DisabledNames(RulesOf(child)), parent) && |elts| == |merged|
    requires forall k :: 0 <= k < |merged| ==> elts[k].rule == merged[k].rule
    ensures RulesOf(elts) == Inherit(RulesOf(child), RulesOf(parent))
  {
    PrunedValsIs(DisabledNames(RulesOf(child)), parent);
    RulesOfConcat(child, PrunedVals(DisabledNames(RulesOf(child)), parent));
    assert RulesOf(elts) == RulesOf(merged);
  }

  // ---------- levels of configuration ----------

  /** The configuration of one level, for requests and for responses. */
  class LocConf {
    var headersIn: RuleArray?
    var headersOut: RuleArray?
    var cntIn: nat
    var cntOut: nat

    constructor ()
      ensures headersIn == null && headersOut == null && cntIn == 0 && cntOut == 0
    {
      headersIn, headersOut, cntIn, cntOut := null, null, 0, 0;
    }

    ghost predicate Counted()
      reads this, headersIn, headersOut
    {
      Tallied(headersIn, cntIn) && Tallied(headersOut, cntOut)
    }

    /** No two rule sets share an array. */
    ghost predicate Unshared()
      reads this
    {
      headersIn != null ==> headersIn != headersOut
    }

    ghost predicate UnsharedWith(other: LocConf)
      reads this, other
    {
      && (headersIn != null ==> headersIn != other.headersIn && headersIn != other.headersOut)
      && (headersOut != null ==> headersOut != other.headersIn && headersOut != other.headersOut)
    }
  }

  /** One side of a level. A level without rules of its own shares the array of its parent. */
  method MergeSide(curr: RuleArray?, currCnt: nat, prev: RuleArray?, prevCnt: nat, width: nat, stride: nat)
    returns (merged: RuleArray?, cnt: nat)
    requires curr != null ==> curr != prev
    requires Tallied(curr, currCnt) && Tallied(prev, prevCnt) && 0 < stride <= width
    modifies curr
    ensures merged == if old(Elts(curr)) == [] then prev else curr
    ensures Tallied(merged, cnt)
    ensures RulesOf(Elts(merged)) == Inherit(RulesOf(old(Elts(curr))), RulesOf(Elts(prev)))
  {
    InheritEmpty(RulesOf(Elts(prev)));
    InheritEmpty(RulesOf(Elts(curr)));
    merged, cnt := curr, currCnt;
    if curr == null || |curr.elts| == 0 {
      merged, cnt := prev, prevCnt;
    } else if prev != null && |prev.elts| > 0 {
      cnt := MergeOneArray(curr, prev, prevCnt, width, stride);
    }
  }

  /** A level inherits from its parent level, which stays as it is. */
  method MergeLocConf(conf: LocConf, prev: LocConf, width: nat, stride: nat)
    requires conf != prev && conf.Unshared() && conf.UnsharedWith(prev)
    requires conf.Counted() && prev.Counted() && 0 < stride <= width
    modifies conf, conf.headersIn, conf.headersOut
    ensures conf.Counted() && prev.Counted() && (prev.Unshared() ==> conf.Unshared())
    ensures Elts(prev.headersIn) == old(Elts(prev.headersIn)) && Elts(prev.headersOut) == old(Elts(prev.headersOut))
    ensures RulesOf(Elts(conf.headersIn)) == Inherit(RulesOf(old(Elts(conf.headersIn))), RulesOf(Elts(prev.headersIn)))
    ensures RulesOf(Elts(conf.headersOut))
            == Inherit(RulesOf(old(Elts(conf.headersOut))), RulesOf(Elts(prev.headersOut)))
  {
    hide RulesOf, Inherit;
    var merged, cnt := MergeSide(conf.headersOut, conf.cntOut, prev.headersOut, prev.cntOut, width, stride);
    ghost var out := Elts(merged);
    var mergedIn, cntIn := MergeSide(conf.headersIn, conf.cntIn, prev.headersIn, prev.cntIn, width, stride);
    conf.headersOut, conf.cntOut, conf.headersIn, conf.cntIn := merged, cnt, mergedIn, cntIn;
  }

  // ---------- what inheritance is for ----------

  lemma {:induction false} SameRules(a: seq<HeaderVal>, b: seq<HeaderVal>)
    requires Numbered(a) && Numbered(b) && RulesOf(a) == RulesOf(b)
    ensures a == b
  {
    forall i | 0 <= i < |a| ensures i < |b| && a[i] == b[i] {
      assert RulesOf(a)[i] == RulesOf(b)[i];
    }
  }

  /** Three levels: the rules and the ids are the same in whichever order the levels are merged, even if one is
      empty. */
  lemma {:induction false} LevelsAssociate(location: seq<HeaderVal>, server: seq<HeaderVal>, http: seq<HeaderVal>,
                                           outer: seq<HeaderVal>, inner: seq<HeaderVal>, left: seq<HeaderVal>,
                                           right: seq<HeaderVal>)
    requires RulesOf(outer) == Inherit(RulesOf(server), RulesOf(http))
             && RulesOf(left) == Inherit(RulesOf(location), RulesOf(outer))
    requires RulesOf(inner) == Inherit(RulesOf(location), RulesOf(server))
             && RulesOf(right) == Inherit(RulesOf(inner), RulesOf(http))
    requires Numbered(left) && Numbered(right)
    ensures left == right
  {
    InheritAssociative(RulesOf(location), RulesOf(server), RulesOf(http));
    SameRules(left, right);
  }

  /** Running the merged array ends like running all rules of the level and then all rules of its parent. */
  lemma {:induction false} MergedRunsAlike<S>(env: Env<S>, child: seq<HeaderVal>, parent: seq<HeaderVal>,
                                              merged: seq<HeaderVal>, s: S)
    requires RulesOf(merged) == Inherit(RulesOf(child), RulesOf(parent))
    ensures SameEnd(Run(env, RulesOf(merged), {}, s), Run(env, RulesOf(child + parent), {}, s))
  {
    InheritKeepsMeaning(env, RulesOf(child), RulesOf(parent), s);
    RulesOfConcat(child, parent);
  }
}
