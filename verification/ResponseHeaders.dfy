/** The response header editor: headers are overwritten or marked as deleted in place, and new ones are pushed. */
module ResponseHeaders {
  import opened Names
  import opened NginxList
  import opened HeaderEdit
  import opened Rules
  import opened ResponseEdit
  import opened ContentTypes
  import opened ResponseState
  import opened RequestState

  /** A scan in progress: the first `k` headers of `s0` have been dealt with. */
  ghost predicate ScannedTo(rule: Rule, v: string, s0: seq<Entry>, s: seq<Entry>, k: nat, matched: bool) {
    var t := rule.ResponseTarget();
    && |s| == |s0| && k <= |s|
    && matched == AnyHit(t, s0[..k])
    && s == Overwritten(rule, v, t, false, s0[..k]) + s0[k..]
  }

  lemma {:induction false} OverwrittenSnoc(rule: Rule, v: string, t: Target, matched: bool, s: seq<Entry>, e: Entry)
    ensures AnyHit(t, s + [e]) <==> AnyHit(t, s) || Hits(t, e)
    ensures Overwritten(rule, v, t, matched, s + [e])
         == Overwritten(rule, v, t, matched, s) + [
              if Hits(t, e) then Rewritten(rule, v, matched || AnyHit(t, s), e) else e]
    decreases s
  {
    if s == [] {
      assert s + [e] == [e];
    } else {
      assert (s + [e])[1..] == s[1..] + [e];
      OverwrittenSnoc(rule, v, t, matched || Hits(t, s[0]), s[1..], e);
    }
  }

  lemma {:induction false} ScanStep(rule: Rule, v: string, s0: seq<Entry>, s: seq<Entry>, k: nat, matched: bool)
    requires ScannedTo(rule, v, s0, s, k, matched) && k < |s|
    ensures var t := rule.ResponseTarget();
            s[k] == s0[k] &&
            if Hits(t, s[k]) then ScannedTo(rule, v, s0, s[k := Rewritten(rule, v, matched, s[k])], k + 1, true)
            else ScannedTo(rule, v, s0, s, k + 1, matched)
  {
    hide AnyHit, Overwritten;
    var t := rule.ResponseTarget();
    assert s0[..k + 1] == s0[..k] + [s0[k]];
    OverwrittenSnoc(rule, v, t, false, s0[..k], s0[k]);
    var e := if Hits(t, s0[k]) then Rewritten(rule, v, matched, s0[k]) else s0[k];
    assert s[k := e] == Overwritten(rule, v, t, false, s0[..k]) + [e] + s0[k + 1..];
    assert s[k := s[k]] == s;
  }

  lemma {:induction false} ScanBegins(rule: Rule, v: string, s: seq<Entry>)
    ensures ScannedTo(rule, v, s, s, 0, false)
  {
    assert s[..0] == [];
  }

  /** An add rule that meets a header leaves the list alone. */
  lemma {:induction false} AddMeets(rule: Rule, v: string, noCreate: bool, s0: seq<Entry>, s: seq<Entry>, k: nat)
    requires ScannedTo(rule, v, s0, s, k, false) && k < |s| && rule.opcode == Add && Hits(rule.ResponseTarget(), s[k])
    ensures s == s0 == EditResponse(rule, v, noCreate, s0)
  {
    var t := rule.ResponseTarget();
    NoHit(rule, v, t, s0[..k]);
    assert s0[..k] + s0[k..] == s0;
    AnyHitAt(t, s0, k);
  }

  lemma {:induction false} AddReports(rule: Rule, v: string, noCreate: bool, s0: seq<Entry>, k: nat,
                                      l: seq<Slot<Entry>>, output: Option<Slot<Entry>>)
    requires k < |s0| && rule.opcode == Add && Hits(rule.ResponseTarget(), s0[k])
    ensures Output(rule, v, noCreate, s0, l, output, output)
  {
    AnyHitAt(rule.ResponseTarget(), s0, k);
  }

  lemma {:induction false} CreatedIsReported(rule: Rule, v: string, noCreate: bool, s0: seq<Entry>, l: seq<Slot<Entry>>,
                                             slot: Slot<Entry>, output: Option<Slot<Entry>>)
    requires |l| == |s0|
    requires rule.opcode == Append
      || !(AnyHit(rule.ResponseTarget(), s0) || rule.opcode == Rewrite || ((rule.wildcard || noCreate) && v == ""))
    ensures Output(rule, v, noCreate, s0, l + [slot], output, Some(slot))
  {
  }

  lemma {:induction false} AnyHitAt(t: Target, s: seq<Entry>, k: nat)
    requires k < |s| && Hits(t, s[k])
    ensures AnyHit(t, s)
  {
    if k > 0 {
      AnyHitAt(t, s[1..], k - 1);
    }
  }

  lemma {:induction false} NoHit(rule: Rule, v: string, t: Target, s: seq<Entry>)
    requires !AnyHit(t, s)
    ensures Overwritten(rule, v, t, false, s) == s
  {
    if s != [] {
      NoHit(rule, v, t, s[1..]);
    }
  }

  lemma {:induction false} ScanComplete(rule: Rule, v: string, noCreate: bool, s0: seq<Entry>, s: seq<Entry>,
                                        matched: bool)
    requires ScannedTo(rule, v, s0, s, |s|, matched) && rule.opcode != Append && (rule.opcode == Add ==> !matched)
    ensures !matched ==> s == s0
    ensures EditResponse(rule, v, noCreate, s0)
         == if matched || rule.opcode == Rewrite || ((rule.wildcard || noCreate) && v == "") then s
            else s + [NewEntry(rule, v)]
  {
    var t := rule.ResponseTarget();
    assert s0[..|s|] == s0 && s0[|s|..] == [];
    if !matched {
      NoHit(rule, v, t, s0);
    }
  }

  /** The field passed in as `output`, after the headers `s` at `l` have been dealt with. */
  ghost predicate OutputSoFar(t: Target, s: seq<Entry>, l: seq<Slot<Entry>>, output: Option<Slot<Entry>>,
                              out: Option<Slot<Entry>>) {
    match LastHit(t, s)
    case None => out == output
    case Some(j) => j < |l| && out == Some(l[j])
  }

  /** The field after a whole edit that has left the addresses `l`. */
  ghost predicate Output(rule: Rule, v: string, noCreate: bool, s0: seq<Entry>, l: seq<Slot<Entry>>,
                         output: Option<Slot<Entry>>, out: Option<Slot<Entry>>) {
    match Reported(rule, v, noCreate, s0)
    case None => out == output
    case Some(j) => j < |l| && out == Some(l[j])
  }

  lemma {:induction false} OutputStep(rule: Rule, v: string, s0: seq<Entry>, s: seq<Entry>, l: seq<Slot<Entry>>, k: nat,
                                      matched: bool, output: Option<Slot<Entry>>, out: Option<Slot<Entry>>)
    requires ScannedTo(rule, v, s0, s, k, matched) && k < |s| == |l|
             && OutputSoFar(rule.ResponseTarget(), s0[..k], l, output, out)
    ensures var t := rule.ResponseTarget();
            s[k] == s0[k] && OutputSoFar(t, s0[..k + 1], l, output, if Hits(t, s[k]) then Some(l[k]) else out)
  {
    hide Overwritten, AnyHit, LastHit;
    assert s0[..k + 1] == s0[..k] + [s0[k]];
    LastHitSnoc(rule.ResponseTarget(), s0[..k], s0[k]);
    assert s[k] == s0[k] by { ScanStep(rule, v, s0, s, k, matched); }
  }

  lemma {:induction false} OutputBegins(t: Target, s: seq<Entry>, l: seq<Slot<Entry>>, output: Option<Slot<Entry>>)
    ensures OutputSoFar(t, s[..0], l, output, output)
  {
  }

  lemma {:induction false} HitIsLast(t: Target, s: seq<Entry>)
    ensures AnyHit(t, s) <==> LastHit(t, s).Some?
  {
    if s != [] {
      var front := s[..|s| - 1];
      assert s == front + [s[|s| - 1]];
      HitIsLast(t, front);
      OverwrittenSnoc(Rule("", 0, Set, false, false, None, "", Generic), "", t, false, front, s[|s| - 1]);
    }
  }

  lemma {:induction false} OutputComplete(rule: Rule, v: string, noCreate: bool, s0: seq<Entry>, s: seq<Entry>,
                                          l: seq<Slot<Entry>>, matched: bool, output: Option<Slot<Entry>>,
                                          out: Option<Slot<Entry>>)
    requires ScannedTo(rule, v, s0, s, |s|, matched) && rule.opcode != Append && (rule.opcode == Add ==> !matched)
    requires OutputSoFar(rule.ResponseTarget(), s0, l, output, out)
    ensures matched || rule.opcode == Rewrite || ((rule.wildcard || noCreate) && v == "") ==>
            Output(rule, v, noCreate, s0, l, output, out)
    ensures matched == AnyHit(rule.ResponseTarget(), s0)
  {
    hide Overwritten, AnyHit, LastHit;
    assert s0[..|s|] == s0;
    HitIsLast(rule.ResponseTarget(), s0);
  }

  /** Both, while the scan goes on. */
  ghost predicate Scanning(rule: Rule, v: string, s0: seq<Entry>, l: seq<Slot<Entry>>, s: seq<Entry>, k: nat,
                           matched: bool, output: Option<Slot<Entry>>, out: Option<Slot<Entry>>) {
    && ScannedTo(rule, v, s0, s, k, matched) && (rule.opcode == Add ==> !matched)
    && |s0| == |l| && OutputSoFar(rule.ResponseTarget(), s0[..k], l, output, out) && (!matched ==> out == output)
  }

  lemma {:induction false} ScanningBegins(rule: Rule, v: string, s: seq<Entry>, l: seq<Slot<Entry>>,
                                          output: Option<Slot<Entry>>)
    requires |s| == |l|
    ensures Scanning(rule, v, s, l, s, 0, false, output, output)
  {
    ScanBegins(rule, v, s);
    OutputBegins(rule.ResponseTarget(), s, l, output);
  }

  lemma {:induction false} ScanningStep(rule: Rule, v: string, s0: seq<Entry>, l: seq<Slot<Entry>>, s: seq<Entry>,
                                        k: nat, matched: bool, output: Option<Slot<Entry>>, out: Option<Slot<Entry>>)
    requires Scanning(rule, v, s0, l, s, k, matched, output, out) && k < |s|
    ensures if !Hits(rule.ResponseTarget(), s[k]) then Scanning(rule, v, s0, l, s, k + 1, matched, output, out)
            else if rule.opcode == Add then
              && s == EditResponse(rule, v, true, s0) == EditResponse(rule, v, false, s0)
              && Output(rule, v, true, s0, l, output, out) && Output(rule, v, false, s0, l, output, out)
            else
              && |l| == |s|
              && Scanning(rule, v, s0, l, s[k := Rewritten(rule, v, matched, s[k])], k + 1, true, output, Some(l[k]))
  {
    hide EditResponse, Output, Rewritten, Hits, OutputSoFar;
    assert |s| == |s0| && k <= |s0| by { ScannedSizes(rule, v, s0, s, k, matched); }
    hide ScannedTo;
    ScanStep(rule, v, s0, s, k, matched);
    OutputStep(rule, v, s0, s, l, k, matched, output, out);
    if Hits(rule.ResponseTarget(), s[k]) && rule.opcode == Add {
      AddMeets(rule, v, true, s0, s, k);
      AddMeets(rule, v, false, s0, s, k);
      AddReports(rule, v, true, s0, k, l, output);
      AddReports(rule, v, false, s0, k, l, output);
    }
  }

  lemma {:induction false} ScannedSizes(rule: Rule, v: string, s0: seq<Entry>, s: seq<Entry>, k: nat, matched: bool)
    requires ScannedTo(rule, v, s0, s, k, matched)
    ensures |s| == |s0| && k <= |s|
  {
  }

  lemma {:induction false} ScanningEnds(rule: Rule, v: string, noCreate: bool, s0: seq<Entry>, l: seq<Slot<Entry>>,
                                        s: seq<Entry>, matched: bool, output: Option<Slot<Entry>>,
                                        out: Option<Slot<Entry>>)
    requires Scanning(rule, v, s0, l, s, |s|, matched, output, out) && rule.opcode != Append
    ensures !matched ==> s == s0
    ensures matched == AnyHit(rule.ResponseTarget(), s0)
    ensures EditResponse(rule, v, noCreate, s0)
         == if matched || rule.opcode == Rewrite || ((rule.wildcard || noCreate) && v == "") then s
            else s + [NewEntry(rule, v)]
    ensures matched || rule.opcode == Rewrite || ((rule.wildcard || noCreate) && v == "") ==>
            Output(rule, v, noCreate, s0, l, output, out)
  {
    hide EditResponse, Output, AnyHit, OutputSoFar;
    ScannedSizes(rule, v, s0, s, |s|, matched);
    assert s0[..|s|] == s0;
    hide ScannedTo;
    ScanComplete(rule, v, noCreate, s0, s, matched);
    OutputComplete(rule, v, noCreate, s0, s, l, matched, output, out);
  }

  /** The scan loop: `stop` says that an add rule has met a header, `matched` that there was a hit. */
  method Scan(headers: List<Entry>, rule: Rule, v: string, ghost noCreate: bool, output: Option<Slot<Entry>>)
    returns (stop: bool, matched: bool, out: Option<Slot<Entry>>)
    requires headers.Valid() && rule.opcode != Append
    modifies headers.Repr
    ensures headers.Valid() && headers.Repr == old(headers.Repr) && headers.slots == old(headers.slots)
    ensures stop ==> headers.elements == EditResponse(rule, v, noCreate, old(headers.elements))
    ensures stop ==> Output(rule, v, noCreate, old(headers.elements), headers.slots, output, out)
    ensures !stop ==> Scanning(rule, v, old(headers.elements), headers.slots, headers.elements, |headers.elements|,
            matched, output, out)
  {
    hide *;
    ghost var s0, l0 := headers.elements, headers.slots;
    headers.Sizes();
    matched, out := false, output;
    var part, i := headers.part, 0;
    ghost var c := 0;
    headers.Head();
    headers.Standing(0, 0);
    ScanningBegins(rule, v, s0, l0, output);
    while true
      invariant headers.Valid() && headers.Repr == old(headers.Repr) && headers.slots == l0
      invariant c < |headers.parts| == |headers.windows| && part == headers.parts[c] && i <= part.nelts
      invariant headers.Position(c, i) <= |headers.slots| == |headers.elements|
      invariant Scanning(rule, v, s0, l0, headers.elements, headers.Position(c, i), matched, output, out)
      decreases |headers.slots| - headers.Position(c, i)
    {
      headers.Standing(c, i);
      if i >= part.nelts {
        if part.next == null {
          break;
        }
        part, i, c := part.next, 0, c + 1;
        headers.Standing(c, i);
      }
      var h, slot := part.elts[part.off + i], Slot(part.elts, part.off + i);
      Standing(headers, part, i, c, h);
      ScanningStep(rule, v, s0, l0, headers.elements, headers.Position(c, i), matched, output, out);
      if Hit(rule, h) {
        if rule.opcode == Add {
          return true, matched, out;
        }
        Overwrite(headers, part, i, c, Rewritten(rule, v, matched, h));
        matched, out := true, Some(slot);
      }
      i := i + 1;
    }
    stop := false;
  }

  /** Puts a header at the end of the list. */
  method Create(headers: List<Entry>, e: Entry) returns (slot: Slot<Entry>)
    requires headers.Valid()
    modifies headers.Repr
    ensures headers.Valid() && old(headers.Repr) <= headers.Repr && fresh(headers.Repr - old(headers.Repr))
    ensures headers.elements == old(headers.elements) + [e] && headers.slots == old(headers.slots) + [slot]
    ensures |headers.slots| == |headers.elements|
  {
    hide *;
    ghost var s0 := headers.elements;
    headers.Own();
    headers.Sizes();
    slot := headers.Push();
    headers.Own();
    headers.Bounds();
    assert headers.slots[|headers.slots| - 1] == slot;
    headers.Store(|headers.slots| - 1, slot, e);
    assert headers.elements == s0 + [e];
  }

  /** The set-header helper of the response side. No header moves. */
  method SetHeader(headers: List<Entry>, rule: Rule, v: string, noCreate: bool, output: Option<Slot<Entry>>)
    returns (out: Option<Slot<Entry>>)
    requires headers.Valid()
    modifies headers.Repr
    ensures headers.Valid() && old(headers.Repr) <= headers.Repr && fresh(headers.Repr - old(headers.Repr))
    ensures headers.elements == EditResponse(rule, v, noCreate, old(headers.elements))
    ensures old(headers.slots) <= headers.slots
    ensures Output(rule, v, noCreate, old(headers.elements), headers.slots, output, out)
  {
    hide *;
    ghost var s0, l0 := headers.elements, headers.slots;
    headers.Sizes();
    out := output;
    if rule.opcode != Append {
      var stop, matched;
      stop, matched, out := Scan(headers, rule, v, noCreate, output);
      if stop {
        return;
      }
      headers.Sizes();
      ScanningEnds(rule, v, noCreate, s0, l0, headers.elements, matched, output, out);
      if matched || rule.opcode == Rewrite || ((rule.wildcard || noCreate) && v == "") {
        return;
      }
    }
    var slot := Create(headers, NewEntry(rule, v));
    Appended(rule, v, noCreate, s0);
    CreatedIsReported(rule, v, noCreate, s0, l0, slot, output);
    out := Some(slot);
  }

  lemma {:induction false} Appended(rule: Rule, v: string, noCreate: bool, s: seq<Entry>)
    ensures rule.opcode == Append ==> EditResponse(rule, v, noCreate, s) == s + [NewEntry(rule, v)]
  {
  }

  /** The tests of the response scan. */
  predicate Hit(rule: Rule, h: Entry)
    ensures Hit(rule, h) <==> Hits(rule.ResponseTarget(), h)
  {
    && h.hash != 0
    && ((!rule.wildcard && SameName(h.key, rule.key)) || (rule.wildcard && HasPrefix(h.key, rule.Stem())))
  }

  lemma {:induction false} Standing(headers: List<Entry>, part: Part<Entry>, i: nat, c: nat, h: Entry)
    requires headers.Valid() && c < |headers.parts| && part == headers.parts[c] && i < part.nelts
    requires part.off + i < part.elts.Length && h == part.elts[part.off + i]
    ensures c <= |headers.windows| && headers.Position(c, i) < |headers.elements|
            && headers.elements[headers.Position(c, i)] == h
  {
    headers.Standing(c, i);
  }

  /** Writes the header at element `i` of a part. */
  method Overwrite(headers: List<Entry>, part: Part<Entry>, i: nat, ghost c: nat, e: Entry)
    requires headers.Valid() && c < |headers.parts| && part == headers.parts[c] && i < part.nelts
    modifies headers.Repr
    ensures headers.Valid() && headers.Repr == old(headers.Repr) && headers.slots == old(headers.slots)
    ensures c < |headers.parts| == |headers.windows| && part == headers.parts[c] && i < part.nelts
    ensures old(headers.Position(c, i)) == headers.Position(c, i) < |old(headers.elements)| == |headers.slots|
    ensures headers.Position(c, i + 1) == headers.Position(c, i) + 1 <= |headers.slots|
    ensures headers.elements == old(headers.elements)[headers.Position(c, i) := e]
  {
    headers.Standing(c, i);
    headers.Own();
    headers.Store(headers.Position(c, i), Slot(part.elts, part.off + i), e);
  }

  // ---------- responses ----------

  /** The fields hold the addresses of the headers at the positions `index`. */
  ghost predicate AtPositions(fields: map<string, Option<Slot<Entry>>>, index: map<string, Option<nat>>,
                              l: seq<Slot<Entry>>) {
    && fields.Keys == index.Keys
    && forall b :: b in fields ==>
         match index[b] case None => fields[b] == None case Some(i) => i < |l| && fields[b] == Some(l[i])
  }

  lemma {:induction false} StillAtPositions(fields: map<string, Option<Slot<Entry>>>, index: map<string, Option<nat>>,
                                            l: seq<Slot<Entry>>, l': seq<Slot<Entry>>)
    requires AtPositions(fields, index, l) && l <= l'
    ensures AtPositions(fields, index, l')
  {
  }

  /** The chains hold the addresses of the headers at the positions `links`. */
  ghost predicate ChainsAt(chains: map<string, seq<Slot<Entry>>>, links: map<string, seq<nat>>, l: seq<Slot<Entry>>) {
    chains.Keys == links.Keys && forall b :: b in chains ==> ChainAt(chains[b], links[b], l)
  }

  ghost predicate ChainAt(chain: seq<Slot<Entry>>, links: seq<nat>, l: seq<Slot<Entry>>) {
    |chain| == |links| && forall k :: 0 <= k < |chain| ==> links[k] < |l| && chain[k] == l[links[k]]
  }

  lemma {:induction false} StillChainsAt(chains: map<string, seq<Slot<Entry>>>, links: map<string, seq<nat>>,
                                         l: seq<Slot<Entry>>, l': seq<Slot<Entry>>)
    requires ChainsAt(chains, links, l) && l <= l'
    ensures ChainsAt(chains, links, l')
  {
  }

  lemma {:induction false} MarkedSnoc(s: seq<Entry>, positions: seq<nat>, i: nat)
    requires i < |s|
    ensures Marked(s, positions + [i]) == var m := Marked(s, positions); m[i := m[i].(hash := 0, value := "")]
    decreases |positions|
  {
    if positions == [] {
      assert positions + [i] == [i];
    } else {
      var p := positions[0];
      assert (positions + [i])[1..] == positions[1..] + [i];
      MarkedSnoc(if p < |s| then s[p := s[p].(hash := 0, value := "")] else s, positions[1..], i);
    }
  }

  /** Deletes the headers behind the first one of a chain. */
  method MarkRest(headers: List<Entry>, chain: seq<Slot<Entry>>, ghost links: seq<nat>)
    requires headers.Valid() && ChainAt(chain, links, headers.slots) && 0 < |chain|
    modifies headers.Repr
    ensures headers.Valid() && headers.Repr == old(headers.Repr) && headers.slots == old(headers.slots)
    ensures headers.elements == Marked(old(headers.elements), links[1..])
  {
    hide Marked, List<Entry>.Valid;
    ghost var s0 := headers.elements;
    assert links[1..1] == [];
    MarkedNone(s0);
    for k := 1 to |chain|
      invariant headers.Valid() && headers.Repr == old(headers.Repr) && headers.slots == old(headers.slots)
      invariant headers.elements == Marked(s0, links[1..k])
    {
      var h := chain[k];
      headers.Own();
      headers.Bounds();
      headers.Holds(links[k]);
      MarkedSize(s0, links[1..k]);
      MarkedSnoc(s0, links[1..k], links[k]);
      assert links[1..k + 1] == links[1..k] + [links[k]];
      headers.Store(links[k], h, h.arr[h.idx].(hash := 0, value := ""));
    }
    assert links[1..|chain|] == links[1..];
  }

  lemma {:induction false} MarkedNone(s: seq<Entry>)
    ensures Marked(s, []) == s
  {
  }

  lemma {:induction false} MarkedSize(s: seq<Entry>, positions: seq<nat>)
    ensures |Marked(s, positions)| == |s|
  {
  }

  class Response {
    const headers: List<Entry>
    var fields: map<string, Option<Slot<Entry>>>
    var chains: map<string, seq<Slot<Entry>>>
    var contentType: string
    var typeLen: nat
    var charset: Charset
    var contentLength: int

    ghost var index: map<string, Option<nat>>   // the position in the list of each field's header
    ghost var links: map<string, seq<nat>>      // the positions of each chain's headers

    constructor (names: set<string>, chained: set<string>, capacity: nat)
      requires 0 < capacity
      ensures Valid() && fresh(headers.Repr)
      ensures State() == ResState([], map b | b in names :: None, map b | b in chained :: [], "", 0, Unset, -1)
    {
      headers := new List(capacity);
      fields, index := map b | b in names :: None, map b | b in names :: None;
      chains, links := map b | b in chained :: [], map b | b in chained :: [];
      contentType, typeLen, charset, contentLength := "", 0, Unset, -1;
    }

    ghost predicate Valid()
      reads this, headers, headers.Repr
    {
      && this !in headers.Repr && headers.Valid()
      && AtPositions(fields, index, headers.slots) && ChainsAt(chains, links, headers.slots)
    }

    ghost function State(): ResState
      reads this, headers
    {
      ResState(headers.elements, index, links, contentType, typeLen, charset, contentLength)
    }

    /** The part of the Content-Type handler outside the list. */
    method KeepType(v: string)
      modifies this`contentType, this`typeLen, this`charset
      ensures contentType == v && typeLen == Introducer(v, 0)
      ensures charset == match CharsetOf(v) case None => old(charset) case Some(r) => In(v, r)
    {
      hide *;
      contentType := v;
      var range;
      typeLen, range := ScanCharset(v);
      if range.Some? {
        charset := In(v, range.value);
      }
    }

    /** The set-header helper without a field. */
    method SetUnnamed(rule: Rule, v: string, noCreate: bool)
      requires Valid()
      modifies headers.Repr
      ensures Valid() && old(headers.Repr) <= headers.Repr && fresh(headers.Repr - old(headers.Repr))
      ensures State() == old(State()).(entries := EditResponse(rule, v, noCreate, old(State()).entries))
    {
      hide EditResponse, List<Entry>.Valid, AtPositions, ChainsAt, Output;
      ghost var l0 := headers.slots;
      var _ := SetHeader(headers, rule, v, noCreate, None);
      StillAtPositions(fields, index, l0, headers.slots);
      StillChainsAt(chains, links, l0, headers.slots);
    }

    /** The Content-Type handler. */
    method SetContentType(rule: Rule, v: string)
      requires Valid() && rule.handler == ContentType
      modifies this`contentType, this`typeLen, this`charset, headers.Repr
      ensures Valid() && old(headers.Repr) <= headers.Repr && fresh(headers.Repr - old(headers.Repr))
      ensures State() == SetType(rule, v, old(State()))
    {
      hide EditResponse, Introducer, CharsetOf, List<Entry>.Valid, AtPositions, ChainsAt;
      KeepType(v);
      SetUnnamed(rule, "", true);
    }

    /** The handler of the builtin names, when the field is null. */
    method SetNew(rule: Rule, v: string, name: string)
      requires Valid() && name == Lower(rule.key) && name in fields && fields[name] == None && rule.opcode != Rewrite
      modifies this`fields, this`index, headers.Repr
      ensures Valid() && old(headers.Repr) <= headers.Repr && fresh(headers.Repr - old(headers.Repr))
      ensures State() == SetField(rule, v, old(State())) && fields.Keys == old(fields.Keys)
    {
      hide EditResponse, Reported, List<Entry>.Valid, Lower, ChainsAt;
      ghost var l0, reported := headers.slots, Reported(rule, v, false, headers.elements);
      var h := SetHeader(headers, rule, v, false, fields[name]);
      StillAtPositions(fields, index, l0, headers.slots);
      StillChainsAt(chains, links, l0, headers.slots);
      fields := fields[name := h];
      if reported.Some? {
        index := index[name := reported];
      }
    }

    /** The handler of the builtin names. */
    method SetBuiltin(rule: Rule, v: string)
      requires Valid() && Lower(rule.key) in fields
      modifies this`fields, this`index, headers.Repr
      ensures Valid() && old(headers.Repr) <= headers.Repr && fresh(headers.Repr - old(headers.Repr))
      ensures State() == SetField(rule, v, old(State())) && fields.Keys == old(fields.Keys)
    {
      hide EditResponse, Reported, List<Entry>.Valid, Lower, ChainsAt;
      var name := Lower(rule.key);
      headers.Bounds();
      if fields[name] == None {
        if rule.opcode == Rewrite {
          return;
        }
        SetNew(rule, v, name);
        return;
      }
      if rule.opcode == Add {
        return;
      }
      ghost var k := index[name].value;
      var slot := fields[name].value;
      headers.Holds(k);
      headers.Own();
      headers.Store(k, slot, Revised(rule, v, slot.arr[slot.idx]));
    }

    /** The Content-Length handler. */
    method SetContentLength(rule: Rule, v: string) returns (ok: bool)
      requires Valid() && Lower(rule.key) in fields && rule.handler == ContentLength
      modifies this`fields, this`index, this`contentLength, headers.Repr
      ensures Valid() && old(headers.Repr) <= headers.Repr && fresh(headers.Repr - old(headers.Repr))
      ensures (State(), ok) == HandleResponse(rule, v, old(State())) && fields.Keys == old(fields.Keys)
    {
      hide SetField, List<Entry>.Valid, AtPositions, ChainsAt, ParseSize, Lower;
      if v == "" {
        contentLength := -1;
      } else {
        var size := ParseSize(v);
        if size == None {
          return false;
        }
        contentLength := size.value;
      }
      SetBuiltin(rule, v);
      ok := true;
    }

    /** The Cache-Control handler, when there is a chain. */
    method SetFirst(rule: Rule, v: string, name: string)
      requires Valid() && name == Lower(rule.key) && name in chains && chains[name] != []
      modifies headers.Repr
      ensures Valid() && headers.Repr == old(headers.Repr)
      ensures State() == ResponseState.SetChain(rule, v, old(State()))
    {
      hide Marked, List<Entry>.Valid, Lower, AtPositions;
      ghost var s0, c := headers.elements, links[name];
      MarkRest(headers, chains[name], c);
      MarkedSize(s0, c[1..]);
      headers.Own();
      headers.Bounds();
      headers.Holds(c[0]);
      var h := chains[name][0];
      headers.Store(c[0], h, h.arr[h.idx].(hash := if v == "" then 0 else rule.hash, value := v));
    }

    /** The Cache-Control handler. */
    method SetChain(rule: Rule, v: string)
      requires Valid() && Lower(rule.key) in chains
      modifies this`chains, this`links, headers.Repr
      ensures Valid() && old(headers.Repr) <= headers.Repr && fresh(headers.Repr - old(headers.Repr))
      ensures State() == ResponseState.SetChain(rule, v, old(State())) && chains.Keys == old(chains.Keys)
    {
      hide Marked, List<Entry>.Valid, Lower, AtPositions;
      var name := Lower(rule.key);
      headers.Sizes();
      if chains[name] != [] {
        SetFirst(rule, v, name);
        return;
      }
      if v == "" {
        return;
      }
      ghost var l0 := headers.slots;
      var slot := Create(headers, Entry(rule.hash, CACHE_CONTROL, v, ""));
      StillAtPositions(fields, index, l0, headers.slots);
      StillChainsAt(chains, links, l0, headers.slots);
      chains, links := chains[name := [slot]], links[name := [|l0|]];
    }

    /** The handler of a rule. */
    method Dispatch(rule: Rule, v: string) returns (ok: bool)
      requires Valid() && Suits(rule, fields.Keys, chains.Keys)
      modifies this, headers.Repr
      ensures Valid() && old(headers.Repr) <= headers.Repr && fresh(headers.Repr - old(headers.Repr))
      ensures (State(), ok) == HandleResponse(rule, v, old(State()))
      ensures fields.Keys == old(fields.Keys) && chains.Keys == old(chains.Keys)
    {
      hide EditResponse, Introducer, CharsetOf, List<Entry>.Valid, SetField, SetType, ResponseState.SetChain,
          AtPositions, ChainsAt,
        ParseSize, Lower;
      ok := true;
      if rule.handler == ContentType {
        SetContentType(rule, v);
      } else if rule.handler == Builtin {
        SetBuiltin(rule, v);
      } else if rule.handler == ContentLength {
        ok := SetContentLength(rule, v);
      } else if rule.handler == Multi {
        SetChain(rule, v);
      } else {
        SetUnnamed(rule, v, false);
      }
    }
  }
}
