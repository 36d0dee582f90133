/** Header-control rules and the headers they edit. */
module Rules {
  import opened Names
  import opened Seqs
  import opened HeaderEdit

  datatype Option<+T> = None | Some(value: T)

  /** `if=expr`, or `if!=expr` when negative. */
  datatype Condition = Condition(expr: string, negative: bool)

  /** The function a rule's header name selects; every name outside the table is `Generic`. */
  datatype Handler = Generic | Builtin | Host | ContentLength | ContentType | Multi

  /** A parsed rule. `next` is the -n flag, `wildcard` is set by a trailing '*' in the name. */
  datatype Rule = Rule(key: string, hash: nat, opcode: Opcode, wildcard: bool, next: bool,
                       filter: Option<Condition>, template: string, handler: Handler) {

    function Stem(): string {
      if key == "" then "" else key[..|key| - 1]
    }

    /** What a rule is about on the request side: a wildcard covers nothing unless the value is empty. */
    function RequestTarget(v: string): Target {
      if !wildcard then Exact(key) else if v == "" then Prefix(Stem()) else Nothing
    }

    /** The two tests of the request scan. */
    predicate RequestCovers(v: string, key: string)
      ensures RequestCovers(v, key) <==> RequestTarget(v).Covers(key)
    {
      || (!wildcard && SameName(key, this.key))
      || (wildcard && v == "" && HasPrefix(key, Stem()))
    }

    /** What a rule is about on the response side. */
    function ResponseTarget(): Target {
      if wildcard then Prefix(Stem()) else Exact(key)
    }
  }

  /** One header (`ngx_table_elt_t`); hash 0 marks it as deleted or as never to be sent. */
  datatype Entry = Entry(hash: nat, key: string, value: string, lowcaseKey: string)

  function NewEntry(rule: Rule, v: string): Entry {
    Entry(if v == "" then 0 else rule.hash, rule.key, v, Lower(rule.key))
  }

  function Keys(s: seq<Entry>): (keys: seq<string>)
    ensures |keys| == |s|
    ensures forall i :: 0 <= i < |s| ==> keys[i] == s[i].key
  {
    if s == [] then [] else [s[0].key] + Keys(s[1..])
  }

  lemma {:induction false} KeysRemoveAt(s: seq<Entry>, k: nat)
    requires k < |s|
    ensures Keys(RemoveAt(s, k)) == RemoveAt(Keys(s), k)
  {
  }

  lemma {:induction false} KeysUpdate(s: seq<Entry>, k: nat, e: Entry)
    requires k < |s| && e.key == s[k].key
    ensures Keys(s[k := e]) == Keys(s)
  {
  }

  lemma {:induction false} KeysConcat(a: seq<Entry>, b: seq<Entry>)
    ensures Keys(a + b) == Keys(a) + Keys(b)
  {
  }

  /** A rule in a configured list, with its id. */
  datatype HeaderVal = HeaderVal(rule: Rule, id: nat)

  function RulesOf(hs: seq<HeaderVal>): (rules: seq<Rule>)
    ensures |rules| == |hs|
    ensures forall i :: 0 <= i < |hs| ==> rules[i] == hs[i].rule
  {
    if hs == [] then [] else [hs[0].rule] + RulesOf(hs[1..])
  }

  /** Ids are positions. */
  predicate Numbered(hs: seq<HeaderVal>) {
    forall i :: 0 <= i < |hs| ==> hs[i].id == i
  }
}
