/** What edits leave, header by header: which positions of the list stay, stated on the characters of the names. */
module EditPositions {
  import opened Names
  import opened Seqs
  import opened HeaderEdit
  import opened Rules
  import opened RequestEdit
  import opened AbstractEdit
  import opened ResponseEdit

  /** The name is as long as `p` and starts with it, up to ASCII case. */
  predicate Begins(name: string, p: string) {
    |p| <= |name| && forall i :: 0 <= i < |p| ==> SameLetter(name[i], p[i])
  }

  lemma {:induction false} WithoutSnoc(t: Target, s: seq<Header>, h: Header)
    ensures Without(t, s + [h]) == Without(t, s) + if t.Covers(h.name) then [] else [h]
  {
    hide Target.Covers;
    if s == [] {
      assert s + [h] == [h] && [h][1..] == [];
    } else {
      assert (s + [h])[1..] == s[1..] + [h];
      WithoutSnoc(t, s[1..], h);
    }
  }

  function NotCovered(t: Target, s: seq<Header>): (picks: seq<bool>)
    ensures |picks| == |s| && forall k :: 0 <= k < |s| ==> picks[k] == !t.Covers(s[k].name)
  {
    seq(|s|, (k: nat) requires k < |s| => !t.Covers(s[k].name))
  }

  /** The headers that are not covered, by their positions. */
  lemma {:induction false} WithoutKeeps(t: Target, s: seq<Header>) returns (kept: seq<nat>)
    ensures Lists(kept, NotCovered(t, s))
    ensures |Without(t, s)| == |kept| && forall j :: 0 <= j < |kept| ==> kept[j] < |s| && Without(t, s)[j] == s[kept[j]]
  {
    if s == [] {
      kept := [];
    } else {
      var n := |s| - 1;
      var front := WithoutKeeps(t, s[..n]);
      kept := if t.Covers(s[n].name) then front else front + [n];
      KeepsOneMore(t, s, front);
    }
  }

  lemma {:induction false} KeepsOneMore(t: Target, s: seq<Header>, front: seq<nat>)
    requires s != []
    requires var s' := s[..|s| - 1];
             && Lists(front, NotCovered(t, s')) && |Without(t, s')| == |front|
             && forall j :: 0 <= j < |front| ==> front[j] < |s'| && Without(t, s')[j] == s'[front[j]]
    ensures var kept := if t.Covers(s[|s| - 1].name) then front else front + [|s| - 1];
            && Lists(kept, NotCovered(t, s)) && |Without(t, s)| == |kept|
            && forall j :: 0 <= j < |kept| ==> kept[j] < |s| && Without(t, s)[j] == s[kept[j]]
  {
    hide Lists, Without, Target.Covers;
    var n := |s| - 1;
    assert s == s[..n] + [s[n]];
    WithoutSnoc(t, s[..n], s[n]);
    assert NotCovered(t, s) == NotCovered(t, s[..n]) + [!t.Covers(s[n].name)];
    ListsSnoc(front, NotCovered(t, s[..n]), !t.Covers(s[n].name));
  }

  lemma {:induction false} StemIs(rule: Rule, p: string)
    requires rule.key == p + "*"
    ensures rule.Stem() == p
  {
  }

  lemma {:induction false} PrefixCovers(p: string)
    ensures forall name :: Prefix(p).Covers(name) <==> Begins(name, p)
  {
    forall name ensures Prefix(p).Covers(name) <==> Begins(name, p) {
      HasPrefixByCode(name, p);
    }
  }

  lemma {:induction false} EditClears(rule: Rule, t: Target, s: seq<Header>)
    requires rule.opcode != Append && rule.opcode != Add
    ensures EditHeaders(rule, "", t, s) == Without(t, s)
  {
    WithoutPresent(t, s);
  }

  /** Clearing `p*` leaves on the request list the headers, in order and with their values, whose name is shorter than
      `p` or differs from it, up to ASCII case, at some position of `p`; and no others. */
  lemma {:induction false} RequestClear(rule: Rule, p: string, s: seq<Entry>) returns (kept: seq<nat>)
    requires rule.wildcard && rule.key == p + "*" && rule.opcode != Append && rule.opcode != Add
    ensures forall i, j :: 0 <= i < j < |kept| ==> kept[i] < kept[j]
    ensures forall k: nat :: k in kept <==>
              && k < |s|
              && (|s[k].key| < |p| || exists i :: 0 <= i < |p| && !SameLetter(s[k].key[i], p[i]))
    ensures var after := AllHeaders(Edit(rule, "", s));
            && |after| == |kept|
            && forall j :: 0 <= j < |kept| ==> kept[j] < |s| && after[j] == Header(s[kept[j]].key, s[kept[j]].value)
  {
    hide Edit, Without, EditHeaders, Lower;
    StemIs(rule, p);
    DeletionRefines(rule, "", s);
    EditClears(rule, Prefix(p), AllHeaders(s));
    kept := WithoutKeeps(Prefix(p), AllHeaders(s));
    PrefixCovers(p);
    AllAt(s);
  }

  lemma {:induction false} AllAt(s: seq<Entry>)
    ensures |AllHeaders(s)| == |s|
    ensures forall k :: 0 <= k < |s| ==> AllHeaders(s)[k] == Header(s[k].key, s[k].value)
  {
    if s != [] {
      AllAt(s[1..]);
    }
  }

  /** The same of the headers that a response sends. */
  lemma {:induction false} ResponseClear(rule: Rule, p: string, noCreate: bool, s: seq<Entry>) returns (kept: seq<nat>)
    requires rule.wildcard && rule.key == p + "*" && rule.opcode != Append && rule.opcode != Add
    ensures forall i, j :: 0 <= i < j < |kept| ==> kept[i] < kept[j]
    ensures forall k: nat :: k in kept <==>
              && k < |s| && s[k].hash != 0
              && (|s[k].key| < |p| || exists i :: 0 <= i < |p| && !SameLetter(s[k].key[i], p[i]))
    ensures var after := Visible(EditResponse(rule, "", noCreate, s));
            && |after| == |kept|
            && forall j :: 0 <= j < |kept| ==> kept[j] < |s| && after[j] == Header(s[kept[j]].key, s[kept[j]].value)
  {
    hide EditResponse, Visible, Lower;
    StemIs(rule, p);
    kept := SentCleared(rule, Prefix(p), noCreate, s);
    PrefixCovers(p);
  }

  /** An empty value takes out the headers that are sent and covered, whatever the rule's hash is. */
  lemma {:induction false} SentCleared(rule: Rule, t: Target, noCreate: bool, s: seq<Entry>) returns (kept: seq<nat>)
    requires rule.ResponseTarget() == t && rule.opcode != Append && rule.opcode != Add
    ensures forall i, j :: 0 <= i < j < |kept| ==> kept[i] < kept[j]
    ensures forall k: nat :: k in kept <==> k < |s| && s[k].hash != 0 && !t.Covers(s[k].key)
    ensures var after := Visible(EditResponse(rule, "", noCreate, s));
            && |after| == |kept|
            && forall j :: 0 <= j < |kept| ==> kept[j] < |s| && after[j] == Header(s[kept[j]].key, s[kept[j]].value)
  {
    hide EditResponse, Without, EditHeaders, Visible, Target.Covers;
    HashDoesNotMatter(rule, noCreate, s);
    MarkingRefines(rule.(hash := 1), "", noCreate, s);
    EditClears(rule.(hash := 1), t, Visible(s));
    var sent := VisibleAt(s);
    var left := WithoutKeeps(t, Visible(s));
    kept := Through(sent, left);
    LeftOfSent(t, s, sent, left);
  }

  lemma {:induction false} HashDoesNotMatter(rule: Rule, noCreate: bool, s: seq<Entry>)
    ensures EditResponse(rule.(hash := 1), "", noCreate, s) == EditResponse(rule, "", noCreate, s)
  {
    SameOverwritten(rule, rule.ResponseTarget(), false, s);
  }

  lemma {:induction false} SameOverwritten(rule: Rule, t: Target, matched: bool, s: seq<Entry>)
    ensures Overwritten(rule.(hash := 1), "", t, matched, s) == Overwritten(rule, "", t, matched, s)
    decreases s
  {
    if s != [] {
      SameOverwritten(rule, t, matched || Hits(t, s[0]), s[1..]);
    }
  }

  /** The positions `left` of a list whose elements are at the positions `sent` of another one. */
  function Through(sent: seq<nat>, left: seq<nat>): (r: seq<nat>)
    requires forall j :: 0 <= j < |left| ==> left[j] < |sent|
    ensures |r| == |left| && forall j :: 0 <= j < |left| ==> r[j] == sent[left[j]]
  {
    seq(|left|, (j: nat) requires j < |left| => sent[left[j]])
  }

  lemma {:induction false} LeftOfSent(t: Target, s: seq<Entry>, sent: seq<nat>, left: seq<nat>)
    requires Lists(sent, Sent(s)) && |Visible(s)| == |sent| && Lists(left, NotCovered(t, Visible(s)))
    requires forall j :: 0 <= j < |sent| ==> sent[j] < |s| && Visible(s)[j] == Header(s[sent[j]].key, s[sent[j]].value)
    ensures var kept := Through(sent, left);
            && (forall i, j :: 0 <= i < j < |kept| ==> kept[i] < kept[j])
            && (forall k: nat :: k in kept <==> k < |s| && s[k].hash != 0 && !t.Covers(s[k].key))
  {
    var kept, seen := Through(sent, left), Visible(s);
    hide Visible, Target.Covers;
    forall k: nat | k in kept ensures k < |s| && s[k].hash != 0 && !t.Covers(s[k].key) {
      var j :| 0 <= j < |kept| && kept[j] == k;
      assert seen[left[j]].name == s[k].key;
    }
    forall k: nat | k < |s| && s[k].hash != 0 && !t.Covers(s[k].key) ensures k in kept {
      assert Sent(s)[k];
      var m :| 0 <= m < |sent| && sent[m] == k;
      assert NotCovered(t, seen)[m];
      var j :| 0 <= j < |left| && left[j] == m;
      assert kept[j] == k;
    }
  }

  function Sent(s: seq<Entry>): (picks: seq<bool>)
    ensures |picks| == |s| && forall k :: 0 <= k < |s| ==> picks[k] == (s[k].hash != 0)
  {
    seq(|s|, (k: nat) requires k < |s| => s[k].hash != 0)
  }

  lemma {:induction false} VisibleSnoc(s: seq<Entry>, e: Entry)
    ensures Visible(s + [e]) == Visible(s) + if e.hash == 0 then [] else [Header(e.key, e.value)]
  {
    VisibleConcat(s, [e]);
    assert [e][1..] == [];
  }

  /** The headers that a response sends, by their positions. */
  lemma {:induction false} VisibleAt(s: seq<Entry>) returns (sent: seq<nat>)
    ensures Lists(sent, Sent(s))
    ensures |Visible(s)| == |sent|
    ensures forall j :: 0 <= j < |sent| ==> sent[j] < |s| && Visible(s)[j] == Header(s[sent[j]].key, s[sent[j]].value)
  {
    if s == [] {
      sent := [];
    } else {
      hide Lists, Visible;
      var n := |s| - 1;
      assert s == s[..n] + [s[n]];
      VisibleSnoc(s[..n], s[n]);
      var front := VisibleAt(s[..n]);
      assert Sent(s) == Sent(s[..n]) + [s[n].hash != 0];
      ListsSnoc(front, Sent(s[..n]), s[n].hash != 0);
      sent := if s[n].hash == 0 then front else front + [n];
    }
  }

  // ---------- with a value ----------

  /** On a request, a wildcard rule with a value looks at no header: it adds one called by its own key, star included,
      or does nothing if it rewrites. Adding nothing does nothing, and appending nothing adds an empty header. */
  lemma {:induction false} RequestValue(rule: Rule, v: string, s: seq<Entry>)
    requires rule.wildcard && (v != "" || rule.opcode == Append || rule.opcode == Add)
    ensures AllHeaders(Edit(rule, v, s)) == AllHeaders(s) +
              if rule.opcode == Append || (v != "" && rule.opcode != Rewrite) then [Header(rule.key, v)] else []
  {
    hide Edit, Without, OnlyOne;
    DeletionRefines(rule, v, s);
    NothingPresent(AllHeaders(s));
  }

  lemma {:induction false} NothingPresent(s: seq<Header>)
    ensures !Present(Nothing, s)
  {
    if s != [] {
      NothingPresent(s[1..]);
    }
  }

  lemma {:induction false} PresentAt(t: Target, s: seq<Header>) returns (f: nat)
    ensures f <= |s| && (f < |s| <==> Present(t, s)) && (f < |s| ==> t.Covers(s[f].name))
    ensures forall k :: 0 <= k < f ==> !t.Covers(s[k].name)
  {
    if s == [] || t.Covers(s[0].name) {
      f := 0;
    } else {
      f := PresentAt(t, s[1..]);
      f := f + 1;
    }
  }

  lemma {:induction false} OnlyOneAt(v: string, t: Target, s: seq<Header>, f: nat)
    requires f < |s| && t.Covers(s[f].name) && forall k :: 0 <= k < f ==> !t.Covers(s[k].name)
    ensures OnlyOne(v, t, s) == s[..f] + [s[f].(value := v)] + Without(t, s[f + 1..])
  {
    hide Target.Covers, Without;
    if f > 0 {
      var rest := s[1..];
      OnlyOneAt(v, t, rest, f - 1);
      assert s[..f] == [s[0]] + rest[..f - 1];
      assert rest[f..] == s[f + 1..];
    }
  }

  /** The same by positions: `kept` are those of the headers behind the first covered one that are not covered. */
  lemma {:induction false} OnlyOneKeeps(v: string, t: Target, s: seq<Header>, f: nat) returns (kept: seq<nat>)
    requires f < |s| && t.Covers(s[f].name) && forall k :: 0 <= k < f ==> !t.Covers(s[k].name)
    ensures forall i, j :: 0 <= i < j < |kept| ==> kept[i] < kept[j]
    ensures forall k: nat :: k in kept <==> f < k < |s| && !t.Covers(s[k].name)
    ensures Replaced(v, s, f, kept, OnlyOne(v, t, s))
  {
    hide *;
    OnlyOneAt(v, t, s, f);
    var rest := WithoutKeeps(t, s[f + 1..]);
    kept := Behind(f + 1, rest);
    KeptBehind(t, s, f, rest);
    ReplacedParts(v, s, f, rest, Without(t, s[f + 1..]));
  }

  lemma {:induction false} ReplacedParts(v: string, s: seq<Header>, f: nat, rest: seq<nat>, back: seq<Header>)
    requires f < |s| && |back| == |rest|
    requires forall j :: 0 <= j < |rest| ==> rest[j] < |s[f + 1..]| && back[j] == s[f + 1..][rest[j]]
    ensures Replaced(v, s, f, Behind(f + 1, rest), s[..f] + [s[f].(value := v)] + back)
  {
    var after, kept := s[..f] + [s[f].(value := v)] + back, Behind(f + 1, rest);
    forall j | 0 <= j < |kept| ensures kept[j] < |s| && after[f + 1 + j] == s[kept[j]] {
      assert after[f + 1 + j] == back[j];
    }
  }

  /** The header at position `f` has got the value, those in front of it stand as they did, and behind it are those from
      the positions `kept`. */
  predicate Replaced(v: string, before: seq<Header>, f: nat, kept: seq<nat>, after: seq<Header>) {
    && f < |before| && |after| == f + 1 + |kept| && after[..f] == before[..f] && after[f] == Header(before[f].name, v)
    && forall j :: 0 <= j < |kept| ==> kept[j] < |before| && after[f + 1 + j] == before[kept[j]]
  }

  /** On a response, a wildcard rule with a value gives it to the first header whose name starts with `p`, at position
      `f` of those that are sent, and takes out the others. If there is none, a header called by the rule's own key,
      star included, is added, unless the rule rewrites. An add changes no header. */
  lemma {:induction false} ResponseValue(rule: Rule, p: string, v: string, noCreate: bool, s: seq<Entry>)
    returns (f: nat, kept: seq<nat>)
    requires rule.wildcard && rule.key == p + "*" && rule.hash != 0 && rule.opcode != Append && v != ""
    ensures f <= |Visible(s)|
    ensures forall k :: 0 <= k < |Visible(s)| && k <= f ==>
              (k == f <==> Begins(Visible(s)[k].name, p))
    ensures forall i, j :: 0 <= i < j < |kept| ==> kept[i] < kept[j]
    ensures forall k: nat :: k in kept <==>
              f < k < |Visible(s)| && !Begins(Visible(s)[k].name, p)
    ensures var before, after := Visible(s), Visible(EditResponse(rule, v, noCreate, s));
            if f == |before| then after == before + if rule.opcode == Rewrite then [] else [Header(rule.key, v)]
            else if rule.opcode == Add then after == before
            else Replaced(v, before, f, kept, after)
  {
    hide EditResponse, Visible, Lower, Without, OnlyOne, Present, Replaced;
    var before, t := Visible(s), Prefix(p);
    StemIs(rule, p);
    MarkingRefines(rule, v, noCreate, s);
    PrefixCovers(p);
    hide Target.Covers;
    f := PresentAt(t, before);
    kept := [];
    if f < |before| {
      kept := OnlyOneKeeps(v, t, before, f);
    }
  }

  function Behind(n: nat, rest: seq<nat>): (r: seq<nat>)
    ensures |r| == |rest| && forall j :: 0 <= j < |rest| ==> r[j] == n + rest[j]
  {
    seq(|rest|, (j: nat) requires j < |rest| => n + rest[j])
  }

  lemma {:induction false} KeptBehind(t: Target, s: seq<Header>, f: nat, rest: seq<nat>)
    requires f < |s| && Lists(rest, NotCovered(t, s[f + 1..]))
    ensures var kept := Behind(f + 1, rest);
            && (forall i, j :: 0 <= i < j < |kept| ==> kept[i] < kept[j])
            && (forall k: nat :: k in kept <==> f < k < |s| && !t.Covers(s[k].name))
  {
    hide Target.Covers, Lists, NotCovered;
    var kept, back := Behind(f + 1, rest), s[f + 1..];
    ListedExactly(t, back, rest);
    forall k: nat | k in kept ensures f < k < |s| && !t.Covers(s[k].name) {
      var j :| 0 <= j < |kept| && kept[j] == k;
      assert rest[j] in rest && back[rest[j]] == s[k];
    }
    forall k: nat | f < k < |s| && !t.Covers(s[k].name) ensures k in kept {
      assert back[k - f - 1] == s[k];
      var j :| 0 <= j < |rest| && rest[j] == k - f - 1;
      assert kept[j] == k;
    }
  }

  lemma {:induction false} ListedExactly(t: Target, s: seq<Header>, kept: seq<nat>)
    requires Lists(kept, NotCovered(t, s))
    ensures forall i, j :: 0 <= i < j < |kept| ==> kept[i] < kept[j]
    ensures forall k: nat :: k in kept <==> k < |s| && !t.Covers(s[k].name)
  {
    hide Target.Covers;
    forall k: nat | k < |s| && !t.Covers(s[k].name) ensures k in kept {
      assert NotCovered(t, s)[k];
    }
  }

  // ---------- exact rules ----------

  lemma {:induction false} ExactCovers(key: string)
    ensures forall name :: Exact(key).Covers(name) <==> SameLetters(name, key)
  {
    forall name ensures Exact(key).Covers(name) <==> SameLetters(name, key) {
      NamesByCode(name);
    }
  }

  /** What an exact rule makes of a list, on either side: `f` is the position of the first header of its name, or the
      length. Without one, the rule adds a header, unless the value is empty or the rule rewrites. Otherwise an add
      changes nothing, an empty value takes out all headers of the name, and another value goes into the first of them
      and takes out the others; everything else stays where it is. */
  lemma {:induction false} ExactEdit(rule: Rule, v: string, s: seq<Header>) returns (f: nat, kept: seq<nat>)
    requires rule.opcode != Append
    ensures f <= |s| && forall k :: 0 <= k < |s| && k <= f ==> (k == f <==> SameLetters(s[k].name, rule.key))
    ensures forall i, j :: 0 <= i < j < |kept| ==> kept[i] < kept[j]
    ensures forall k: nat :: k in kept <==>
              k < |s| && (v == "" || f < k) && !SameLetters(s[k].name, rule.key)
    ensures var s' := EditHeaders(rule, v, Exact(rule.key), s);
            if f == |s| then s' == s + if v == "" || rule.opcode == Rewrite then [] else [Header(rule.key, v)]
            else if rule.opcode == Add then s' == s
            else if v == "" then |s'| == |kept| && forall j :: 0 <= j < |kept| ==> kept[j] < |s| && s'[j] == s[kept[j]]
            else Replaced(v, s, f, kept, s')
  {
    hide SameLetters, Without, OnlyOne, Present, Replaced, Lists;
    var t := Exact(rule.key);
    ExactCovers(rule.key);
    hide Target.Covers;
    f := PresentAt(t, s);
    if v == "" {
      kept := WithoutKeeps(t, s);
      ListedExactly(t, s, kept);
    } else if f < |s| {
      kept := OnlyOneKeeps(v, t, s, f);
    } else {
      kept := [];
    }
  }

  // ---------- what is kept beside name and value ----------

  /** Whatever the rule, each header that a response had is the same afterwards, or it was sent and is deleted, or it
      was sent and has the value and the hash of the rule. A header that is created has the rule's key, and the hash 0
      if its value is empty. */
  lemma {:induction false} ResponseEntries(rule: Rule, v: string, noCreate: bool, s: seq<Entry>)
    ensures var s' := EditResponse(rule, v, noCreate, s);
            && |s| <= |s'| <= |s| + 1
            && (|s'| == |s| + 1 ==> Created(rule, v, s'[|s|]))
            && forall j :: 0 <= j < |s| ==>
                 || s'[j] == s[j]
                 || (s[j].hash != 0 && s'[j] == s[j].(hash := 0, value := ""))
                 || (s[j].hash != 0 && v != "" && s'[j] == s[j].(hash := rule.hash, value := v))
  {
    hide Lower, AnyHit, Overwritten;
    LowerByCode(rule.key);
    forall j: nat | j < |s| {
      OverwrittenEntry(rule, v, rule.ResponseTarget(), false, s, j);
    }
  }

  predicate Created(rule: Rule, v: string, e: Entry) {
    && e.hash == (if v == "" then 0 else rule.hash) && e.key == rule.key && e.value == v
    && |e.lowcaseKey| == |e.key|
    && forall i :: 0 <= i < |e.key| ==>
         e.lowcaseKey[i] as int == e.key[i] as int + if 'A' <= e.key[i] <= 'Z' then 32 else 0
  }

  lemma {:induction false} OverwrittenEntry(rule: Rule, v: string, t: Target, matched: bool, s: seq<Entry>, j: nat)
    requires j < |s|
    ensures var e := Overwritten(rule, v, t, matched, s)[j];
            || e == s[j]
            || (s[j].hash != 0 && e == s[j].(hash := 0, value := ""))
            || (s[j].hash != 0 && v != "" && e == s[j].(hash := rule.hash, value := v))
    decreases s
  {
    hide Target.Covers;
    if j > 0 {
      OverwrittenEntry(rule, v, t, matched || Hits(t, s[0]), s[1..], j - 1);
    }
  }

  /** On a request, a header that stays is as it was but for its value, and a created one is as above. */
  lemma {:induction false} RequestEntries(rule: Rule, v: string, s: seq<Entry>, e: Entry)
    requires e in Edit(rule, v, s)
    ensures e in s || (v != "" && exists x :: x in s && e == x.(value := v)) || Created(rule, v, e)
  {
    hide Lower, Keys;
    LowerByCode(rule.key);
    var op, t := rule.opcode, rule.RequestTarget(v);
    KeptAmong(op, v, t, Keys(s), Placed(op, v, t, s));
  }
}
