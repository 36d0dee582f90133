/** The request header editor: physical deletion from the header list while it is being scanned. */
module RequestHeaders {
  import opened Seqs
  import opened Names
  import opened NginxList
  import opened HeaderEdit
  import opened Rules
  import opened RequestEdit
  import opened FieldIndex
  import opened RequestState
  import opened RequestAgreement
  import opened RequestRoom
  import HostValidator
  import Machine

  /** Marks the header at element `i` of a part as deleted and takes it out of the list. */
  method Delete(headers: List<Entry>, part: Part<Entry>, i: nat, ghost c: nat)
    requires headers.Valid() && c < |headers.parts| && part == headers.parts[c] && i < part.nelts
    modifies headers.Repr
    ensures headers.Valid() && old(headers.Repr) <= headers.Repr && fresh(headers.Repr - old(headers.Repr))
    ensures |old(headers.elements)| == |old(headers.slots)|
    ensures var k := old(headers.Position(c, i));
            && k < |old(headers.slots)|
            && headers.elements == RemoveAt(old(headers.elements), k)
                && headers.slots == RemoveAt(old(headers.slots), k)
    ensures RoomLeft(old(headers.Free()), old(headers.slots), headers.Free())
  {
    hide RoomLeft, List<Entry>.Valid;
    headers.Standing(c, i);
    headers.Own();
    ghost var k := headers.Position(c, i);
    ghost var e := headers.elements;
    var h := part.elts[part.off + i];
    headers.Store(k, Slot(part.elts, part.off + i), h.(hash := 0));
    headers.Own();
    headers.Remove(part, i, c);
    assert RemoveAt(e[k := h.(hash := 0)], k) == RemoveAt(e, k);
  }

  /** Puts the value into the header at element `i` of a part. */
  method Place(headers: List<Entry>, part: Part<Entry>, i: nat, ghost c: nat, v: string)
    requires headers.Valid() && c < |headers.parts| && part == headers.parts[c] && i < part.nelts
    modifies headers.Repr
    ensures headers.Valid() && headers.Repr == old(headers.Repr) && headers.parts == old(headers.parts)
            && headers.windows == old(headers.windows)
    ensures headers.slots == old(headers.slots) && headers.Free() == old(headers.Free())
    ensures part.elts == old(part.elts) && part.off == old(part.off) && part.nelts == old(part.nelts)
    ensures var k := old(headers.Position(c, i));
            && k < |old(headers.elements)|
            && headers.elements == old(headers.elements)[k := old(headers.elements)[k].(value := v)]
  {
    hide List<Entry>.Valid, NoDup;
    headers.Standing(c, i);
    headers.Own();
    var h := part.elts[part.off + i];
    headers.Store(headers.Position(c, i), Slot(part.elts, part.off + i), h.(value := v));
  }

  /** The header a walk stands at. */
  lemma {:induction false} At(headers: List<Entry>, part: Part<Entry>, i: nat, c: nat, h: Entry)
    requires headers.Valid() && c < |headers.parts| && part == headers.parts[c] && i < part.nelts
    requires part.off + i < part.elts.Length && h == part.elts[part.off + i]
    ensures c <= |headers.windows| && headers.Position(c, i) < |headers.elements|
            && headers.elements[headers.Position(c, i)] == h
  {
    headers.Standing(c, i);
  }

  /** All that is known while the scan runs. */
  ghost predicate Scanning(rule: Rule, v: string, s0: seq<Entry>, l0: seq<Slot<Entry>>, before: Reserve<Entry>,
                           s: seq<Entry>, l: seq<Slot<Entry>>, after: Reserve<Entry>, k: nat,
                           matched: Option<Slot<Entry>>, output: Option<Slot<Entry>>, out: Option<Slot<Entry>>)
  {
    && Progress(rule.opcode, v, rule.RequestTarget(v), s0, l0, s, l, k, matched, output, out)
    && RoomProgress(v, rule.RequestTarget(v), s0, l0, before, s, l, after)
  }

  lemma {:induction false} ScanningStarts(rule: Rule, v: string, s: seq<Entry>, l: seq<Slot<Entry>>,
                                          room: Reserve<Entry>, output: Option<Slot<Entry>>)
    requires |s| == |l| && rule.opcode != Append
    ensures Scanning(rule, v, s, l, room, s, l, room, 0, None, output, output)
  {
    ScanStarts(rule.opcode, v, rule.RequestTarget(v), s, l, output);
    RoomStarts(v, rule.RequestTarget(v), s, l, room);
  }

  /** Any header that the scan looks at. */
  lemma {:induction false} ScanningStep(rule: Rule, v: string, s0: seq<Entry>, l0: seq<Slot<Entry>>,
                                        before: Reserve<Entry>, s: seq<Entry>, l: seq<Slot<Entry>>, mid: Reserve<Entry>,
                                        k: nat, matched: Option<Slot<Entry>>, output: Option<Slot<Entry>>,
                                        out: Option<Slot<Entry>>)
    requires Scanning(rule, v, s0, l0, before, s, l, mid, k, matched, output, out) && k < |s| == |l| && NoDup(l)
    ensures if !rule.RequestTarget(v).Covers(s[k].key) then
              Scanning(rule, v, s0, l0, before, s, l, mid, k + 1, matched, output, out)
            else if rule.opcode == Add then
              Scanned(rule.opcode, v, rule.RequestTarget(v), s0, l0, s, l, true, output, out)
                  && RoomKept(l0, before, l, mid)
            else if v == "" || (matched.Some? && matched.value != l[k]) then
              true
            else
              Scanning(rule, v, s0, l0, before, s[k := s[k].(value := v)], l, mid, k + 1, Some(l[k]), output,
                  Some(l[k]))
  {
    hide Progress, RoomProgress;
    var op, t := rule.opcode, rule.RequestTarget(v);
    if !t.Covers(s[k].key) {
      SkipStep(op, v, t, s0, l0, s, l, k, matched, output, out);
    } else if op == Add {
      AddStops(v, t, s0, l0, s, l, k, matched, output, out);
      RoomAt(v, t, s0, l0, before, s, l, mid);
    } else if v != "" && (matched == None || matched.value == l[k]) {
      PlaceStep(op, v, t, s0, l0, s, l, k, matched, output, out);
      RoomPlaceStep(v, t, s0, l0, before, s, l, mid, s[k := s[k].(value := v)]);
    }
  }

  lemma {:induction false} ScanningDelete(rule: Rule, v: string, s0: seq<Entry>, l0: seq<Slot<Entry>>,
                                          before: Reserve<Entry>, s: seq<Entry>, l: seq<Slot<Entry>>,
                                          mid: Reserve<Entry>, k: nat, matched: Option<Slot<Entry>>,
                                          output: Option<Slot<Entry>>, out: Option<Slot<Entry>>, after: Reserve<Entry>)
    requires Scanning(rule, v, s0, l0, before, s, l, mid, k, matched, output, out) && k < |s| == |l|
    requires rule.RequestTarget(v).Covers(s[k].key) && rule.opcode != Add
             && (v == "" || (matched.Some? && matched.value != l[k]))
    requires RoomLeft(mid, l, after)
    ensures Scanning(rule, v, s0, l0, before, RemoveAt(s, k), RemoveAt(l, k), after, 0, matched, output, None)
  {
    hide Progress, RoomProgress, RoomLeft;
    var op, t := rule.opcode, rule.RequestTarget(v);
    DeleteStep(op, v, t, s0, l0, s, l, k, matched, output, out);
    RoomDeleteStep(op, v, t, s0, l0, before, s, l, k, mid, matched, output, out, after);
  }

  lemma {:induction false} ScanningEnds(rule: Rule, v: string, s0: seq<Entry>, l0: seq<Slot<Entry>>,
                                        before: Reserve<Entry>, s: seq<Entry>, l: seq<Slot<Entry>>,
                                        after: Reserve<Entry>, k: nat, matched: Option<Slot<Entry>>,
                                        output: Option<Slot<Entry>>, out: Option<Slot<Entry>>)
    requires Scanning(rule, v, s0, l0, before, s, l, after, k, matched, output, out) && k == |s|
    ensures Scanned(rule.opcode, v, rule.RequestTarget(v), s0, l0, s, l, matched.Some?, output, out)
            && RoomKept(l0, before, l, after)
  {
    hide Progress, RoomProgress;
    ScanDone(rule.opcode, v, rule.RequestTarget(v), s0, l0, s, l, matched, output, out);
    RoomAt(v, rule.RequestTarget(v), s0, l0, before, s, l, after);
  }

  /** The scan loop, from the first header to the last. `found` says that the rule is done: it added nothing because
      the header exists, or a header has got the value. */
  method Scan(headers: List<Entry>, rule: Rule, v: string, output: Option<Slot<Entry>>)
    returns (found: bool, out: Option<Slot<Entry>>)
    requires headers.Valid() && rule.opcode != Append
    modifies headers.Repr
    ensures headers.Valid() && old(headers.Repr) <= headers.Repr && fresh(headers.Repr - old(headers.Repr))
    ensures Scanned(rule.opcode, v, rule.RequestTarget(v), old(headers.elements), old(headers.slots), headers.elements,
            headers.slots, found, output, out)
    ensures RoomKept(old(headers.slots), old(headers.Free()), headers.slots, headers.Free())
  {
    hide *;
    ghost var s0, l0, before := headers.elements, headers.slots, headers.Free();
    var matched: Option<Slot<Entry>> := None;
    out := output;
    var part, i := headers.part, 0;
    ghost var c := 0;
    headers.Head();
    headers.Standing(0, 0);
    ScanningStarts(rule, v, s0, l0, before, output);
    while true
      invariant headers.Valid() && old(headers.Repr) <= headers.Repr && fresh(headers.Repr - old(headers.Repr))
      invariant c < |headers.parts| == |headers.windows| && part == headers.parts[c] && i <= part.nelts
      invariant headers.Position(c, i) <= |headers.slots| == |headers.elements|
      invariant Scanning(rule, v, s0, l0, before, headers.elements, headers.slots, headers.Free(),
                headers.Position(c, i),
                         matched, output, out)
      decreases |headers.slots|, |headers.slots| - headers.Position(c, i)
    {
      headers.Standing(c, i);
      if i >= part.nelts {
        if part.next == null {
          break;
        }
        part, i, c := part.next, 0, c + 1;
        headers.Standing(c, i);
      }
      var slot, h := Slot(part.elts, part.off + i), part.elts[part.off + i];
      At(headers, part, i, c, h);
      ghost var s, l, mid, k, m, o := headers.elements, headers.slots, headers.Free(), headers.Position(c, i), matched,
          out;
      ScanningStep(rule, v, s0, l0, before, s, l, mid, k, m, output, o);
      if !rule.RequestCovers(v, h.key) {
        i := i + 1;
      } else if rule.opcode == Add {
        return true, out;
      } else if v == "" || (matched.Some? && matched.value != slot) {
        Delete(headers, part, i, c);
        ScanningDelete(rule, v, s0, l0, before, s, l, mid, k, m, output, o, headers.Free());
        out := None;
        headers.Head();
        assert !(headers.part.next == null && headers.last != headers.part);
        part, i, c := headers.part, 0, 0;
        headers.Sizes();
      } else {
        Place(headers, part, i, c, v);
        matched, out := Some(slot), Some(slot);
        i := i + 1;
        headers.Sizes();
      }
    }
    ScanningEnds(rule, v, s0, l0, before, headers.elements, headers.slots, headers.Free(), headers.Position(c, i),
        matched, output, out);
    found := matched.Some?;
  }

  lemma {:induction false} RoomAt(v: string, t: Target, s0: seq<Entry>, l0: seq<Slot<Entry>>, before: Reserve<Entry>,
                                  s: seq<Entry>, l: seq<Slot<Entry>>, after: Reserve<Entry>)
    requires RoomProgress(v, t, s0, l0, before, s, l, after)
    ensures RoomKept(l0, before, l, after)
  {
  }

  /** The set-header helper: the scan, and the creation of the header if nothing has settled the rule. */
  method SetHeader(headers: List<Entry>, rule: Rule, v: string, output: Option<Slot<Entry>>)
    returns (out: Option<Slot<Entry>>)
    requires headers.Valid()
    modifies headers.Repr
    ensures headers.Valid() && old(headers.Repr) <= headers.Repr && fresh(headers.Repr - old(headers.Repr))
    ensures Edited(rule, v, old(headers.elements), old(headers.slots), headers.elements, headers.slots, output, out)
    ensures RoomEdited(rule, v, old(headers.elements), old(headers.slots), old(headers.Free()), headers.slots,
            headers.Free())
    ensures old(headers.Free()).from >= old(headers.Free()).to && |headers.slots| > |old(headers.slots)| ==>
              headers.slots[|headers.slots| - 1].arr !in old(headers.Repr)
  {
    hide *;
    ghost var s0, l0, before := headers.elements, headers.slots, headers.Free();
    headers.Sizes();
    if rule.opcode != Append {
      var found;
      found, out := Scan(headers, rule, v, output);
      headers.Sizes();
      if found || v == "" || rule.opcode == Rewrite {
        EditedByScan(rule, v, s0, l0, headers.elements, headers.slots, found, output, out);
        ScanCreatesNothing(rule, v, s0, l0, before, headers.elements, headers.slots, headers.Free(), found, output,
            out);
        return;
      }
      NothingFound(rule, v, s0, l0, headers.elements, headers.slots, output, out);
      SameRoom(l0, before, headers.Free());
    }
    headers.Own();
    var slot := headers.Push();
    ghost var after := headers.Free();
    headers.Own();
    headers.Sizes();
    headers.Bounds();
    assert headers.slots[|headers.slots| - 1] == slot;
    headers.Store(|headers.slots| - 1, slot, NewEntry(rule, v));
    EditedByPush(rule, v, s0, l0, slot, output);
    RoomByPush(rule, v, s0, l0, before, slot, after);
    assert headers.elements == s0 + [NewEntry(rule, v)];
    out := Some(slot);
  }

  lemma {:induction false} ScanCreatesNothing(rule: Rule, v: string, s0: seq<Entry>, l0: seq<Slot<Entry>>,
                                              before: Reserve<Entry>, s: seq<Entry>, l: seq<Slot<Entry>>,
                                              after: Reserve<Entry>, found: bool, output: Option<Slot<Entry>>,
                                              out: Option<Slot<Entry>>)
    requires Scanned(rule.opcode, v, rule.RequestTarget(v), s0, l0, s, l, found, output, out) && rule.opcode != Append
    requires found || v == "" || rule.opcode == Rewrite
    requires RoomKept(l0, before, l, after)
    ensures RoomEdited(rule, v, s0, l0, before, l, after) && |l| <= |l0|
  {
    KeptAtMost(rule.opcode, v, rule.RequestTarget(v), Keys(s0), l0);
    hide RoomKept, Kept;
  }

  lemma {:induction false} KeptAtMost<X>(op: Opcode, v: string, t: Target, keys: seq<string>, xs: seq<X>)
    requires |keys| == |xs|
    ensures |Kept(op, v, t, keys, xs)| <= |xs|
  {
  }

  lemma {:induction false} SameRoom(l: seq<Slot<Entry>>, before: Reserve<Entry>, after: Reserve<Entry>)
    requires RoomKept(l, before, l, after)
    ensures after == before
  {
  }

  lemma {:induction false} RoomByPush(rule: Rule, v: string, s0: seq<Entry>, l0: seq<Slot<Entry>>,
                                      before: Reserve<Entry>, slot: Slot<Entry>, after: Reserve<Entry>)
    requires |s0| == |l0|
    requires rule.opcode == Append
             || (v != "" && rule.opcode != Rewrite && First(rule.RequestTarget(v), Keys(s0)) == |s0|)
    requires if before.from < before.to then slot == before.Next() && after == before.(from := slot.idx + 1)
             else slot.arr == after.arr && slot.idx < after.from
    ensures RoomEdited(rule, v, s0, l0, before, l0 + [slot], after)
  {
  }

  /** A request: its header list, and what is derived from it. `fields` are the builtin fields by lower-case name. */
  class Request {
    const headers: List<Entry>
    const badRequest: bool
    var fields: map<string, Option<Slot<Entry>>>
    var server: string
    var contentLength: int

    ghost var addr: seq<Slot<Entry>>            // the addresses that have come into use, by number
    ghost var ids: seq<nat>                     // the numbers of the addresses of the headers
    ghost var spare: Option<nat>
    ghost var refs: map<string, Option<nat>>    // the numbers of the addresses in the fields

    /** A request without headers. */
    constructor (names: set<string>, capacity: nat, badRequest: bool)
      requires 0 < capacity
      ensures Valid() && fields.Keys == names && fresh(headers.Repr)
      ensures State() == ReqState([], "", -1, badRequest, [], None, 0, map b | b in names :: None)
    {
      headers := new List(capacity);
      fields, refs := map b | b in names :: None, map b | b in names :: None;
      server, contentLength, this.badRequest := "", -1, badRequest;
      addr, ids, spare := [], [], None;
      new;
      headers.Sizes();
    }

    ghost predicate Valid()
      reads this, headers, headers.Repr
    {
      && this !in headers.Repr && headers.Valid() && headers.last in headers.Repr
      && Tracks(addr, State(), headers.slots, headers.Free(), headers.Repr)
      && SameFields(addr, refs, fields)
    }

    ghost function State(): ReqState
      reads this, headers
    {
      ReqState(headers.elements, server, contentLength, badRequest, ids, spare, |addr|, refs)
    }

    /** The set-header helper, given a variable that holds `output`, the address with number `id`. */
    method Apply(rule: Rule, v: string, output: Option<Slot<Entry>>, ghost id: Option<nat>)
      returns (out: Option<Slot<Entry>>)
      requires Valid() && SameAddress(addr, id, output)
      modifies this`addr, this`ids, this`spare, headers.Repr
      ensures Valid() && old(headers.Repr) <= headers.Repr && fresh(headers.Repr - old(headers.Repr))
      ensures State() == Applied(rule, v, old(State()))
      ensures SameAddress(addr, OutId(rule, v, old(State()), id), out)
    {
      hide List<Entry>.Valid, Tracks, Edited, Applied, OutId, RoomEdited, SameAddress, SameFields, AddressesAfter;
      ghost var st, l0, before, repr := State(), headers.slots, headers.Free(), headers.Repr;
      if headers.slots == [] {
        headers.RoomWhileEmpty();
      }
      out := SetHeader(headers, rule, v, output);
      headers.Own();
      headers.Bounds();
      ghost var addr' := AddressesAfter(addr, rule, v, st, headers.slots);
      ApplyTracks(addr, addr', rule, v, st, l0, before, repr, headers.elements, headers.slots, headers.Free(),
          headers.Repr,
                  id, output, out, fields);
      addr, ids, spare := addr', Applied(rule, v, st).ids, Applied(rule, v, st).spare;
    }

    /** The set-header helper, given the field of the rule's own name. */
    method ApplyThrough(rule: Rule, v: string, name: string)
      requires Valid() && name == Lower(rule.key) && name in fields
      modifies this`fields, this`addr, this`ids, this`spare, this`refs, headers.Repr
      ensures Valid() && old(headers.Repr) <= headers.Repr && fresh(headers.Repr - old(headers.Repr))
      ensures State() == AppliedThrough(rule, v, old(State())) && fields.Keys == old(fields.Keys)
    {
      hide List<Entry>.Valid, Tracks, Applied, OutId, Lower;
      ghost var st, id := State(), refs[name];
      FieldAddress(name);
      var out := Apply(rule, v, fields[name], id);
      AppliedDerived(rule, v, st);
      SetField(name, out, OutId(rule, v, st, id));
    }

    /** The address in a field, by number. */
    lemma {:induction false} FieldAddress(name: string)
      requires Valid() && name in fields
      ensures name in refs && SameAddress(addr, refs[name], fields[name])
    {
    }

    /** Puts an address in a field. */
    method SetField(name: string, slot: Option<Slot<Entry>>, ghost id: Option<nat>)
      requires Valid() && name in fields && SameAddress(addr, id, slot)
      modifies this`fields, this`refs
      ensures Valid() && State() == old(State()).(fields := old(refs)[name := id]) && fields.Keys == old(fields.Keys)
    {
      hide List<Entry>.Valid, Tracks;
      ghost var st := State();
      fields, refs := fields[name := slot], refs[name := id];
      OtherFields(addr, st, State(), headers.slots, headers.Free(), headers.Repr);
    }

    /** Writes the header at an address. */
    method WriteAt(slot: Slot<Entry>, ghost id: nat, hash: nat, v: string)
      requires Valid() && id < |addr| && slot == addr[id]
      modifies headers.Repr
      ensures Valid() && headers.Repr == old(headers.Repr)
      ensures State() == Write(old(State()), id, hash, v)
    {
      hide List<Entry>.Valid, NoDup, PositionOf;
      Live(addr, State(), headers.slots, headers.Free(), headers.Repr, id);
      ghost var k := PositionOf(ids, id);
      headers.Own();
      if k < |headers.slots| {
        headers.Holds(k);
      }
      WrittenTracks(addr, State(), headers.slots, headers.Free(), headers.Repr, id, hash, v);
      headers.Store(k, slot, slot.arr[slot.idx].(hash := hash, value := v));
    }

    /** The handler of the single-valued builtin names. */
    method SetBuiltin(rule: Rule, v: string)
      requires Valid() && Lower(rule.key) in fields
      modifies this`fields, this`addr, this`ids, this`spare, this`refs, headers.Repr
      ensures Valid() && old(headers.Repr) <= headers.Repr && fresh(headers.Repr - old(headers.Repr))
      ensures State() == RequestState.SetBuiltin(rule, v, old(State())) && fields.Keys == old(fields.Keys)
    {
      hide List<Entry>.Valid, Tracks, AppliedThrough, Write, Lower;
      var name := Lower(rule.key);
      ghost var id := refs[name];
      if fields[name] == None {
        ApplyThrough(rule, v, name);
        return;
      }
      if rule.opcode == Add {
        return;
      }
      if rule.opcode == Append {
        ApplyThrough(rule, v, name);
        return;
      }
      if v == "" {
        WriteAt(fields[name].value, id.value, 0, "");
        ApplyThrough(rule, v, name);
        return;
      }
      WriteAt(fields[name].value, id.value, rule.hash, v);
    }

    /** The handler of the multi-valued names. The helper has to set its variable `h`. */
    method SetMulti(rule: Rule, v: string)
      requires Valid() && Lower(rule.key) in fields && !rule.wildcard && rule.opcode != Append
      requires badRequest || !Unset(rule, v, headers.elements)
      modifies this`fields, this`addr, this`ids, this`spare, this`refs, headers.Repr
      ensures Valid() && old(headers.Repr) <= headers.Repr && fresh(headers.Repr - old(headers.Repr))
      ensures State() == RequestState.SetMulti(rule, v, old(State())) && fields.Keys == old(fields.Keys)
    {
      hide List<Entry>.Valid, Tracks, Applied, OutId, Lower, Unset, SameFields;
      if badRequest {
        return;
      }
      var name := Lower(rule.key);
      FieldAddress(name);
      ghost var st := State();
      AppliedDerived(rule, v, st);
      TrackedSizes(addr, st, headers.slots, headers.Free(), headers.Repr);
      if v != "" {
        SetsVariable(rule, v, st);
      }
      if fields[name].Some? {
        SetField(name, None, None);
      }
      FieldsAside(rule, v, st, refs);
      var h := Apply(rule, v, None, None);
      if v == "" {
        return;
      }
      SetField(name, Some(h.value), OutId(rule, v, st, None));
    }

    /** The Host handler: the value must be valid, and `server` gets its normal form. */
    method SetHost(rule: Rule, v: string) returns (ok: bool)
      requires Valid() && Lower(rule.key) in fields && rule.handler == Host && |v| < Machine.SIZE_MAX
      modifies this`fields, this`server, this`addr, this`ids, this`spare, this`refs, headers.Repr
      ensures Valid() && old(headers.Repr) <= headers.Repr && fresh(headers.Repr - old(headers.Repr))
      ensures (State(), ok) == Handle(rule, v, old(State())) && fields.Keys == old(fields.Keys)
    {
      hide List<Entry>.Valid, RequestState.SetBuiltin, Lower, HostValidator.Normalize, SameFields, Mapped, InUse, NoDup;
      if v != "" {
        var host := HostValidator.ValidateHost(v);
        if host == None {
          return false;
        }
        server := host.value;
      } else {
        server := v;
      }
      SetBuiltin(rule, v);
      ok := true;
    }

    /** The Content-Length handler: the value must be a size, and `contentLength` gets it, or -1 if it is empty. */
    method SetContentLength(rule: Rule, v: string) returns (ok: bool)
      requires Valid() && Lower(rule.key) in fields && rule.handler == ContentLength
      modifies this`fields, this`contentLength, this`addr, this`ids, this`spare, this`refs, headers.Repr
      ensures Valid() && old(headers.Repr) <= headers.Repr && fresh(headers.Repr - old(headers.Repr))
      ensures (State(), ok) == Handle(rule, v, old(State())) && fields.Keys == old(fields.Keys)
    {
      hide List<Entry>.Valid, RequestState.SetBuiltin, Lower, ParseSize, SameFields, Mapped, InUse, NoDup;
      if v == "" {
        contentLength := -1;
      } else {
        var n := ParseSize(v);
        if n == None {
          return false;
        }
        contentLength := n.value;
      }
      SetBuiltin(rule, v);
      ok := true;
    }

    /** The handler of a rule. */
    method Dispatch(rule: Rule, v: string) returns (ok: bool)
      requires Valid() && Admissible(rule, fields.Keys) && Defined(rule, v, State()) && |v| < Machine.SIZE_MAX
      modifies this`fields, this`server, this`contentLength, this`addr, this`ids, this`spare, this`refs, headers.Repr
      ensures Valid() && old(headers.Repr) <= headers.Repr && fresh(headers.Repr - old(headers.Repr))
      ensures (State(), ok) == Handle(rule, v, old(State())) && fields.Keys == old(fields.Keys)
    {
      hide List<Entry>.Valid, RequestState.SetBuiltin, RequestState.SetMulti, Applied, Lower, ParseSize,
          HostValidator.Normalize,
        SameFields, Mapped, InUse, NoDup, Unset;
      ok := true;
      match rule.handler {
        case Generic =>
          var out := Apply(rule, v, None, None);
        case Host =>
          ok := SetHost(rule, v);
        case ContentLength =>
          ok := SetContentLength(rule, v);
        case Multi =>
          SetMulti(rule, v);
        case _ =>
          SetBuiltin(rule, v);
      }
    }
  }

  /** Whether a header is at an address. */
  lemma {:induction false} Live(addr: seq<Slot<Entry>>, st: ReqState, slots: seq<Slot<Entry>>, room: Reserve<Entry>,
                                repr: set<object>, id: nat)
    requires Tracks(addr, st, slots, room, repr) && id < |addr|
    ensures var k := PositionOf(st.ids, id);
            |slots| == |st.ids| == |st.entries| && (if k < |slots| then slots[k] == addr[id] else addr[id] !in slots)
            && addr[id].arr in repr && addr[id].InBounds()
  {
    var k := PositionOf(st.ids, id);
    if k == |slots| {
      forall j | 0 <= j < |slots| ensures slots[j] != addr[id] {
        assert st.ids[j] != id;
      }
    }
  }

  lemma {:induction false} WrittenTracks(addr: seq<Slot<Entry>>, st: ReqState, slots: seq<Slot<Entry>>,
                                         room: Reserve<Entry>, repr: set<object>, id: nat, hash: nat, v: string)
    requires Tracks(addr, st, slots, room, repr)
    ensures Tracks(addr, Write(st, id, hash, v), slots, room, repr)
  {
    WriteSound(st, id, hash, v);
  }

  /** The fields may change, as long as they hold addresses that are in use. */
  lemma {:induction false} OtherFields(addr: seq<Slot<Entry>>, st: ReqState, st': ReqState, slots: seq<Slot<Entry>>,
                                       room: Reserve<Entry>, repr: set<object>)
    requires Tracks(addr, st, slots, room, repr) && st' == st.(fields := st'.fields)
    requires forall b :: b in st'.fields && st'.fields[b].Some? ==> st'.fields[b].value < st.used
    ensures Tracks(addr, st', slots, room, repr)
  {
  }

  /** The variable of the multi-valued handler is set exactly under its condition. */
  lemma {:induction false} SetsVariable(rule: Rule, v: string, st: ReqState)
    requires |st.ids| == |st.entries| && !rule.wildcard && rule.opcode != Append && v != ""
    ensures OutId(rule, v, st, None) == None <==> Unset(rule, v, st.entries)
  {
    FirstWithin(Exact(rule.key), st.entries);
  }

  lemma {:induction false} FirstWithin(t: Target, s: seq<Entry>)
    ensures First(t, Keys(s)) <= |s| == |Keys(s)|
  {
  }

  lemma {:induction false} ApplyTracks(addr: seq<Slot<Entry>>, addr': seq<Slot<Entry>>, rule: Rule, v: string,
                                       st: ReqState, l0: seq<Slot<Entry>>, before: Reserve<Entry>, repr: set<object>,
                                       s: seq<Entry>, l: seq<Slot<Entry>>, after: Reserve<Entry>, repr': set<object>,
                                       id: Option<nat>, output: Option<Slot<Entry>>, out: Option<Slot<Entry>>,
                                       fields: map<string, Option<Slot<Entry>>>)
    requires addr' == AddressesAfter(addr, rule, v, st, l)
    requires Tracks(addr, st, l0, before, repr) && repr <= repr' && (l0 == [] ==> before.from < before.to)
    requires SameAddress(addr, id, output) && SameFields(addr, st.fields, fields)
    requires Edited(rule, v, st.entries, l0, s, l, output, out) && RoomEdited(rule, v, st.entries, l0, before, l, after)
    requires forall k :: 0 <= k < |l| ==> l[k].arr in repr' && l[k].InBounds()
    requires before.from >= before.to && |l| > |l0| ==> l[|l| - 1].arr !in repr
    ensures var st' := Applied(rule, v, st);
            && Tracks(addr', st', l, after, repr')
            && st' == ReqState(s, st.server, st.contentLength, st.badRequest, st'.ids, st'.spare, |addr'|, st.fields)
    ensures SameAddress(addr', OutId(rule, v, st, id), out) && SameFields(addr', st.fields, fields)
  {
    hide Tracks, Edited, Applied, OutId, RoomEdited, SameAddress;
    AppliedKeeps(rule, v, st);
    EditedEdit(rule, v, st.entries, l0, s, l, output, out);
    AppliedTracks(addr, rule, v, st, l0, before, repr, l, after, repr', output, out);
    OutTracks(addr, rule, v, st, l0, before, repr, l, after, repr', id, output, out);
    MoreAddresses(addr, addr', st.fields, fields);
    TracksUsed(addr', Applied(rule, v, st), l, after, repr');
    AppliedDerived(rule, v, st);
  }

  lemma {:induction false} TracksUsed(addr: seq<Slot<Entry>>, st: ReqState, slots: seq<Slot<Entry>>,
                                      room: Reserve<Entry>, repr: set<object>)
    requires Tracks(addr, st, slots, room, repr)
    ensures |addr| == st.used
  {
  }

  lemma {:induction false} MoreAddresses(addr: seq<Slot<Entry>>, addr': seq<Slot<Entry>>,
                                         refs: map<string, Option<nat>>, fields: map<string, Option<Slot<Entry>>>)
    requires SameFields(addr, refs, fields) && addr <= addr'
    ensures SameFields(addr', refs, fields)
  {
  }
}
