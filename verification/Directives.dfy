/** The directives that configure rules: `<name> <operation> [-n] <header> [<value>] [if=<expr> | if!=<expr>]`. */
module Directives {
  import opened Names
  import opened HeaderEdit
  import opened Rules
  import opened RequestState
  import opened ResponseState
  import opened RuleMerge

  /** What a directive is read against: the table of builtin names, the hash of lower-cased names, and which expressions
      compile. */
  datatype Context = Context(table: seq<(string, Handler)>, hash: string -> nat, compiles: string -> bool)

  /** The module's configuration shared by all levels. */
  class MainConf {
    var requiresFilter: bool
    var requiresHandler: bool

    constructor ()
      ensures !requiresFilter && !requiresHandler
    {
      requiresFilter, requiresHandler := false, false;
    }
  }

  predicate IsSpace(c: char) {
    c == ' ' || c == '\t' || c == '\r' || c == '\n'
  }

  predicate IsName(key: string) {
    key != "" && forall i :: 0 <= i < |key| ==> !IsSpace(key[i])
  }

  function OpName(op: Opcode): string {
    match op
    case Set => "set"
    case Add => "add"
    case Pass => "pass"
    case Clear => "clear"
    case Append => "append"
    case Rewrite => "rewrite"
  }

  predicate TakesValue(op: Opcode) {
    op != Clear && op != Pass
  }

  function ConditionText(c: Condition): string {
    (if c.negative then "if!=" else "if=") + c.expr
  }

  predicate InTable(table: seq<(string, Handler)>, key: string) {
    exists i :: 0 <= i < |table| && SameName(key, table[i].0)
  }

  /** The handler of the first table name that equals `key` up to case. */
  function HandlerOf(table: seq<(string, Handler)>, key: string): Handler {
    if table == [] then Generic
    else if SameName(key, table[0].0) then table[0].1
    else HandlerOf(table[1..], key)
  }

  lemma {:induction false} HandlerAt(table: seq<(string, Handler)>, key: string, i: nat)
    requires i <= |table| && forall j :: 0 <= j < i ==> !SameName(key, table[j].0)
    requires i < |table| ==> SameName(key, table[i].0)
    ensures HandlerOf(table, key) == if i < |table| then table[i].1 else Generic
  {
    if i > 0 {
      HandlerAt(table[1..], key, i - 1);
    }
  }

  // ---------- the grammar ----------

  /** What the name and the operation determine. */
  predicate WellFormed(ctx: Context, rule: Rule) {
    && IsName(rule.key)
    && rule.wildcard == (rule.key[|rule.key| - 1] == '*')
    && rule.hash == ctx.hash(Lower(rule.key))
    && rule.handler == HandlerOf(ctx.table, rule.key)
    && (rule.opcode == Append ==> !InTable(ctx.table, rule.key))
    && (rule.template != "" ==> TakesValue(rule.opcode) && ctx.compiles(rule.template))
    && (rule.filter.Some? ==> rule.filter.value.expr != "" && ctx.compiles(rule.filter.value.expr))
  }

  /** Where the name stands, and where a condition may stand. */
  function NameAt(rule: Rule): nat {
    if rule.next then 3 else 2
  }

  function ConditionAt(rule: Rule): nat {
    NameAt(rule) + if TakesValue(rule.opcode) then 2 else 1
  }

  /** The words of a directive, the first being its own name, spell a rule. */
  predicate Spells(args: seq<string>, rule: Rule) {
    && |args| == ConditionAt(rule) + (if rule.filter.Some? then 1 else 0)
    && SameName(args[1], OpName(rule.opcode))
    && rule.next == (args[2] == "-n")
    && args[NameAt(rule)] == rule.key
    && (TakesValue(rule.opcode) ==> args[NameAt(rule) + 1] == rule.template)
    && (rule.filter.Some? ==> args[ConditionAt(rule)] == ConditionText(rule.filter.value))
  }

  predicate Configures(ctx: Context, args: seq<string>, rule: Rule) {
    Spells(args, rule) && WellFormed(ctx, rule)
  }

  lemma {:induction false} OpNamesDiffer(a: Opcode, b: Opcode)
    requires SameName(OpName(a), OpName(b))
    ensures a == b
  {
    assert Lower(OpName(a))[0] == OpName(a)[0] && Lower(OpName(a))[1] == OpName(a)[1];
    assert Lower(OpName(b))[0] == OpName(b)[0] && Lower(OpName(b))[1] == OpName(b)[1];
  }

  lemma {:induction false} ConditionTextsDiffer(a: Condition, b: Condition)
    requires ConditionText(a) == ConditionText(b)
    ensures a == b
  {
    assert ConditionText(a)[2] == ConditionText(b)[2];
    assert a.expr == ConditionText(a)[if a.negative then 4 else 3..];
    assert b.expr == ConditionText(b)[if b.negative then 4 else 3..];
  }

  /** A directive configures at most one rule. */
  lemma {:induction false} Unambiguous(ctx: Context, args: seq<string>, a: Rule, b: Rule)
    requires Configures(ctx, args, a) && Configures(ctx, args, b)
    ensures a == b
  {
    hide HandlerOf, ConditionText, OpName, Lower;
    OpNamesDiffer(a.opcode, b.opcode);
    if a.filter.Some? {
      ConditionTextsDiffer(a.filter.value, b.filter.value);
    }
  }

  /** The words for a rule. */
  function Words(directive: string, rule: Rule): seq<string> {
    [directive, OpName(rule.opcode)] + (if rule.next then ["-n"] else []) + [rule.key]
    + (if TakesValue(rule.opcode) then [rule.template] else [])
    + (if rule.filter.Some? then [ConditionText(rule.filter.value)] else [])
  }

  /** Every well-formed rule can be configured, except one without -n for the header "-n". */
  lemma {:induction false} EveryRuleHasWords(ctx: Context, directive: string, rule: Rule)
    requires WellFormed(ctx, rule)
    ensures Configures(ctx, Words(directive, rule), rule) <==> (rule.key == "-n" ==> rule.next)
  {
    hide HandlerOf, ConditionText, OpName, Lower, InTable;
  }

  // ---------- the grammar, word by word ----------

  /** No word names two operations. */
  lemma {:induction false} OneOpcode(word: string)
    ensures forall a, b: Opcode :: SameName(word, OpName(a)) && SameName(word, OpName(b)) ==> a == b
  {
    hide Lower, OpName;
    forall a, b: Opcode | SameName(word, OpName(a)) && SameName(word, OpName(b)) ensures a == b {
      OpNamesDiffer(a, b);
    }
  }

  /** The word, in any case, for this operation and for no other. */
  predicate IsWordFor(word: string, op: Opcode) {
    && (op == Set <==> SameLetters(word, "set")) && (op == Clear <==> SameLetters(word, "clear"))
    && (op == Add <==> SameLetters(word, "add")) && (op == Append <==> SameLetters(word, "append"))
    && (op == Rewrite <==> SameLetters(word, "rewrite")) && (op == Pass <==> SameLetters(word, "pass"))
  }

  lemma {:induction false} OperationWord(word: string, op: Opcode)
    ensures SameName(word, OpName(op)) <==> IsWordFor(word, op)
  {
    hide Lower, SameName;
    NamesByCode(word);
    OneOpcode(word);
    assert OpName(Set) == "set" && OpName(Clear) == "clear" && OpName(Add) == "add";
    assert OpName(Append) == "append" && OpName(Rewrite) == "rewrite" && OpName(Pass) == "pass";
  }

  /** The words that spell a rule: an optional `-n`, the name, a value unless the operation is clear or pass, and
      optionally `if=` or, for a negative condition, `if!=`, with an expression. */
  lemma {:induction false} SpelledByWords(args: seq<string>, rule: Rule)
    ensures Spells(args, rule) <==>
              && |args| >= 3
              && (rule.opcode == Set <==> SameLetters(args[1], "set"))
              && (rule.opcode == Clear <==> SameLetters(args[1], "clear"))
              && (rule.opcode == Add <==> SameLetters(args[1], "add"))
              && (rule.opcode == Append <==> SameLetters(args[1], "append"))
              && (rule.opcode == Rewrite <==> SameLetters(args[1], "rewrite"))
              && (rule.opcode == Pass <==> SameLetters(args[1], "pass"))
              && rule.next == (args[2] == "-n")
              && var name := if args[2] == "-n" then 3 else 2;
                 var end := if rule.opcode == Clear || rule.opcode == Pass then name + 1 else name + 2;
                 && end <= |args| && args[name] == rule.key
                 && (rule.opcode != Clear && rule.opcode != Pass ==> args[name + 1] == rule.template)
                 && match rule.filter {
                      case None => |args| == end
                      case Some(c) =>
                        |args| == end + 1 && args[end] == if c.negative then "if!=" + c.expr else "if=" + c.expr
                    }
  {
    hide OpName, SameLetters, SameName;
    if |args| >= 3 {
      OperationWord(args[1], rule.opcode);
    }
  }

  /** What the name and the table say about the rule, and which expressions compile. */
  lemma {:induction false} WellFormedByCode(ctx: Context, rule: Rule)
    ensures WellFormed(ctx, rule) <==>
              && rule.key != ""
              && (forall i :: 0 <= i < |rule.key| ==> rule.key[i] as int !in {9, 10, 13, 32})
              && (rule.wildcard <==> rule.key[|rule.key| - 1] as int == 42)
              && rule.hash == ctx.hash(Lower(rule.key))
              && (forall i :: 0 <= i < |ctx.table| && SameLetters(rule.key, ctx.table[i].0) ==>
                    rule.handler == ctx.table[i].1 || exists j :: 0 <= j < i && SameLetters(rule.key, ctx.table[j].0))
              && ((forall i :: 0 <= i < |ctx.table| ==> !SameLetters(rule.key, ctx.table[i].0)) ==>
                    rule.handler == Generic)
              && (rule.opcode == Append ==>
                    forall i :: 0 <= i < |ctx.table| ==> !SameLetters(rule.key, ctx.table[i].0))
              && (rule.template != "" ==> rule.opcode != Clear && rule.opcode != Pass && ctx.compiles(rule.template))
              && (rule.filter.Some? ==> rule.filter.value.expr != "" && ctx.compiles(rule.filter.value.expr))
  {
    hide HandlerOf, Lower, SameName, SameLetters;
    NamesByCode(rule.key);
    assert IsName(rule.key) <==>
        rule.key != "" && forall i :: 0 <= i < |rule.key| ==> rule.key[i] as int !in {9, 10, 13, 32} by {
      assert forall c: char :: IsSpace(c) <==> c as int in {9, 10, 13, 32};
    }
    var i := FirstEntry(ctx.table, rule.key);
    HandlerAt(ctx.table, rule.key, i);
  }

  lemma {:induction false} FirstEntry(table: seq<(string, Handler)>, key: string) returns (i: nat)
    ensures i <= |table| && (i < |table| ==> SameName(key, table[i].0))
    ensures forall j :: 0 <= j < i ==> !SameName(key, table[j].0)
  {
    i := 0;
    while i < |table| && !SameName(key, table[i].0)
      invariant i <= |table| && forall j :: 0 <= j < i ==> !SameName(key, table[j].0)
    {
      i := i + 1;
    }
  }

  // ---------- reading a directive ----------

  /** The operation that a word names. */
  method ParseOpcode(word: string) returns (op: Option<Opcode>)
    ensures op.Some? ==> SameName(word, OpName(op.value))
    ensures op.None? ==> forall o: Opcode :: !SameName(word, OpName(o))
    ensures op == Some(Set) <==> SameLetters(word, "set")
    ensures op == Some(Clear) <==> SameLetters(word, "clear")
    ensures op == Some(Add) <==> SameLetters(word, "add")
    ensures op == Some(Append) <==> SameLetters(word, "append")
    ensures op == Some(Rewrite) <==> SameLetters(word, "rewrite")
    ensures op == Some(Pass) <==> SameLetters(word, "pass")
  {
    hide Lower, SameLetters, SameName;
    NamesByCode(word);
    OneOpcode(word);
    assert OpName(Set) == "set" && OpName(Clear) == "clear" && OpName(Add) == "add";
    assert OpName(Append) == "append" && OpName(Rewrite) == "rewrite" && OpName(Pass) == "pass";
    if SameName(word, "set") {
      op := Some(Set);
    } else if SameName(word, "add") {
      op := Some(Add);
    } else if SameName(word, "pass") {
      op := Some(Pass);
    } else if SameName(word, "clear") {
      op := Some(Clear);
    } else if SameName(word, "append") {
      op := Some(Append);
    } else if SameName(word, "rewrite") {
      op := Some(Rewrite);
    } else {
      op := None;
    }
  }

  /** The condition that a word spells. */
  method ParseCondition(word: string) returns (c: Option<Condition>)
    ensures c.Some? ==> c.value.expr != "" && word == ConditionText(c.value)
    ensures c.None? ==> forall d: Condition :: d.expr != "" ==> word != ConditionText(d)
  {
    if |word| > 3 && word[..3] == "if=" {
      c := Some(Condition(word[3..], false));
    } else if |word| > 4 && word[..4] == "if!=" {
      c := Some(Condition(word[4..], true));
    } else {
      c := None;
    }
  }

  /** The parts of a rule that depend on its name and value. */
  method ParseHeader(ctx: Context, key: string, value: string, hv: Rule) returns (ok: bool, rule: Rule)
    requires hv.key == "" && hv.handler == Generic && hv.template == ""
    ensures ok <==> IsName(key) && (value == "" || hv.opcode == Clear || ctx.compiles(value))
    ensures ok ==> rule == hv.(key := key, wildcard := key[|key| - 1] == '*', hash := ctx.hash(Lower(key)),
                               handler := HandlerOf(ctx.table, key),
                               template := if hv.opcode == Clear then "" else value)
  {
    ok, rule := false, hv;
    if |key| == 0 {
      return;
    }
    for i := 0 to |key|
      invariant forall j :: 0 <= j < i ==> !IsSpace(key[j])
    {
      if IsSpace(key[i]) {
        return;
      }
    }
    rule := rule.(wildcard := key[|key| - 1] == '*', hash := ctx.hash(Lower(key)), key := key);
    var i := 0;
    while i < |ctx.table| && !SameName(key, ctx.table[i].0)
      invariant i <= |ctx.table| && forall j :: 0 <= j < i ==> !SameName(key, ctx.table[j].0)
    {
      i := i + 1;
    }
    HandlerAt(ctx.table, key, i);
    rule := rule.(handler := if i < |ctx.table| then ctx.table[i].1 else Generic);
    var value := if rule.opcode == Clear then "" else value;
    if value == "" {
      return true, rule;
    }
    rule := rule.(template := value);
    ok := ctx.compiles(value);
  }

  lemma {:induction false} OneOperation(args: seq<string>, op: Opcode)
    requires |args| >= 3 && SameName(args[1], OpName(op))
    ensures forall rule :: Spells(args, rule) ==> rule.opcode == op
  {
    forall rule | Spells(args, rule) ensures rule.opcode == op {
      OpNamesDiffer(rule.opcode, op);
    }
  }

  /** The rule that a directive with this operation configures, if it configures one. */
  method ParseRule(ctx: Context, args: seq<string>, op: Opcode) returns (r: Option<Rule>)
    requires |args| >= 3 && SameName(args[1], OpName(op))
    ensures r.Some? ==> Configures(ctx, args, r.value)
    ensures r.None? ==> forall rule :: !Configures(ctx, args, rule)
  {
    hide HandlerOf, ConditionText, Lower, OpName, SameName;
    r := None;
    OneOperation(args, op);
    var hv := BLANK.rule.(opcode := op);
    var cur := 2;
    if args[cur] == "-n" {
      hv := hv.(next := true);
      cur := cur + 1;
    }
    if |args| <= cur {
      return;
    }
    var key, value := args[cur], "";
    cur := cur + 1;
    if TakesValue(op) {
      if |args| <= cur {
        return;
      }
      value := args[cur];
      cur := cur + 1;
    }
    if |args| > cur {
      var c := ParseCondition(args[cur]);
      if c == None || !ctx.compiles(c.value.expr) {
        if c.Some? {
          forall d: Condition | args[cur] == ConditionText(d) ensures d == c.value {
            ConditionTextsDiffer(d, c.value);
          }
        }
        return;
      }
      hv := hv.(filter := c);
      cur := cur + 1;
    }
    if |args| > cur {
      return;
    }
    var ok, rule := ParseHeader(ctx, key, value, hv);
    if !ok {
      return;
    }
    if rule.opcode == Append {
      for i := 0 to |ctx.table|
        invariant forall j :: 0 <= j < i ==> !SameName(key, ctx.table[j].0)
      {
        if SameName(key, ctx.table[i].0) {
          return;
        }
      }
    }
    r := Some(rule);
  }

  function Side(conf: LocConf, isInput: bool): RuleArray?
    reads conf
  {
    if isInput then conf.headersIn else conf.headersOut
  }

  function Count(conf: LocConf, isInput: bool): nat
    reads conf
  {
    if isInput then conf.cntIn else conf.cntOut
  }

  /** A directive puts one rule at the end, with the next id. */
  ghost predicate Adds(ctx: Context, args: seq<string>, before: seq<HeaderVal>, cnt: nat, after: seq<HeaderVal>) {
    |after| > 0 && after == before + [after[|after| - 1]] && after[|after| - 1].id == cnt
        && Configures(ctx, args, after[|after| - 1].rule)
  }

  lemma {:induction false} RuleAdded(ctx: Context, args: seq<string>, before: seq<HeaderVal>, hv: HeaderVal)
    requires Configures(ctx, args, hv.rule) && hv.id == |before| && Numbered(before)
    ensures Adds(ctx, args, before, hv.id, before + [hv]) && Numbered(before + [hv])
  {
    hide Configures;
  }

  /** Makes room for a rule, in a new array if there is none. */
  method PushSlot(conf: LocConf, isInput: bool) returns (headers: RuleArray)
    requires conf.Unshared()
    modifies conf`headersIn, conf`headersOut, Side(conf, isInput)
    ensures conf.Unshared() && Side(conf, isInput) == headers && Side(conf, !isInput) == old(Side(conf, !isInput))
    ensures old(Side(conf, isInput)) != null ==> headers == old(Side(conf, isInput))
    ensures old(Side(conf, isInput)) == null ==> fresh(headers)
    ensures headers.elts == old(Elts(Side(conf, isInput))) + [BLANK]
  {
    var side := Side(conf, isInput);
    if side == null {
      side := new RuleArray();
      if isInput {
        conf.headersIn := side;
      } else {
        conf.headersOut := side;
      }
    }
    headers := side;
    headers.elts := headers.elts + [BLANK];
  }

  /** Adds the rule of a directive to a level, with the level's counter as its id. If the directive configures no rule
      the configuration fails; then a slot without id may have been added. */
  method ParseDirective(conf: LocConf, main: MainConf, ctx: Context, args: seq<string>, isInput: bool)
    returns (ok: bool)
    requires conf.Unshared() && conf.Counted()
    modifies conf, main, Side(conf, isInput)
    ensures conf.Unshared() && Side(conf, !isInput) == old(Side(conf, !isInput))
            && Count(conf, !isInput) == old(Count(conf, !isInput))
    ensures ok <==> exists rule :: Configures(ctx, args, rule)
    ensures ok ==> conf.Counted()
    ensures ok ==> Adds(ctx, args, old(Elts(Side(conf, isInput))), old(Count(conf, isInput)), Elts(Side(conf, isInput)))
    ensures main.requiresHandler == (old(main.requiresHandler) || (ok && isInput))
    ensures main.requiresFilter == (old(main.requiresFilter) || (ok && !isInput))
  {
    hide Configures, Numbered, Adds;
    ok := false;
    if |args| < 3 {
      TooFewWords(ctx, args);
      return;
    }
    var op := ParseOpcode(args[1]);
    if op == None {
      NoOperation(ctx, args);
      return;
    }
    ghost var before := Elts(Side(conf, isInput));
    var headers := PushSlot(conf, isInput);
    var rule := ParseRule(ctx, args, op.value);
    if rule == None {
      return;
    }
    var added := HeaderVal(rule.value, Count(conf, isInput));
    RuleAdded(ctx, args, before, added);
    assert headers.elts[|headers.elts| - 1 := added] == before + [added];
    headers.elts := headers.elts[|headers.elts| - 1 := added];
    if isInput {
      conf.cntIn := conf.cntIn + 1;
      main.requiresHandler := true;
    } else {
      conf.cntOut := conf.cntOut + 1;
      main.requiresFilter := true;
    }
    ok := true;
  }

  lemma {:induction false} TooFewWords(ctx: Context, args: seq<string>)
    requires |args| < 3
    ensures forall rule :: !Configures(ctx, args, rule)
  {
  }

  lemma {:induction false} NoOperation(ctx: Context, args: seq<string>)
    requires |args| >= 3 && forall o: Opcode :: !SameName(args[1], OpName(o))
    ensures forall rule :: !Configures(ctx, args, rule)
  {
  }

  // ---------- the rules of a configuration ----------

  /** The lower-cased names of a table. */
  function TableNames(table: seq<(string, Handler)>): set<string> {
    set i | 0 <= i < |table| :: Lower(table[i].0)
  }

  /** A table of builtin names: no entry is for all other names, and no name ends in '*'. */
  predicate IsTable(table: seq<(string, Handler)>) {
    forall i :: 0 <= i < |table| ==> table[i].1 != Generic && table[i].0 != "" && table[i].0[|table[i].0| - 1] != '*'
  }

  lemma {:induction false} InTableNames(table: seq<(string, Handler)>, key: string)
    ensures InTable(table, key) <==> Lower(key) in TableNames(table)
  {
  }

  lemma {:induction false} HandlerInTable(table: seq<(string, Handler)>, key: string)
    requires IsTable(table)
    ensures HandlerOf(table, key) != Generic <==> InTable(table, key)
  {
    if table != [] {
      HandlerInTable(table[1..], key);
      if i :| 0 <= i < |table| && SameName(key, table[i].0) {
        assert i > 0 ==> SameName(key, table[1..][i - 1].0);
      }
      if i :| 0 <= i < |table[1..]| && SameName(key, table[1..][i].0) {
        assert SameName(key, table[i + 1].0);
      }
    }
  }

  /** Every configured rule is fit to run on requests. */
  lemma {:induction false} ConfiguredIsAdmissible(ctx: Context, args: seq<string>, rule: Rule)
    requires IsTable(ctx.table) && Configures(ctx, args, rule)
    ensures Admissible(rule, TableNames(ctx.table))
  {
    hide Configures, Spells, TableNames, HandlerOf, Lower;
    assert WellFormed(ctx, rule) by { UnpackConfigures(ctx, args, rule); }
    InTableNames(ctx.table, rule.key);
    HandlerInTable(ctx.table, rule.key);
    if rule.handler != Generic {
      var i :| 0 <= i < |ctx.table| && SameName(rule.key, ctx.table[i].0);
      SameLast(ctx.table[i].0, rule.key);
    }
  }

  lemma {:induction false} UnpackConfigures(ctx: Context, args: seq<string>, rule: Rule)
    requires Configures(ctx, args, rule)
    ensures WellFormed(ctx, rule)
  {
  }

  /** The lower-cased names of a table that have a field, or a chain. */
  function FieldNames(table: seq<(string, Handler)>): set<string> {
    set i | 0 <= i < |table| && (table[i].1 == Builtin || table[i].1 == ContentLength) :: Lower(table[i].0)
  }

  function ChainNames(table: seq<(string, Handler)>): set<string> {
    set i | 0 <= i < |table| && table[i].1 == Multi :: Lower(table[i].0)
  }

  /** A table without handlers of the request side, in which only Cache-Control is multi-valued, and without repeated
      names. */
  predicate IsResponseTable(table: seq<(string, Handler)>) {
    && (forall i :: 0 <= i < |table| ==> table[i].1 != Generic && table[i].1 != Host)
    && (forall i :: 0 <= i < |table| && table[i].1 == Multi ==> table[i].0 == CACHE_CONTROL)
    && (forall i, j :: 0 <= i < j < |table| ==> !SameName(table[i].0, table[j].0))
  }

  /** Every configured rule is fit to run on responses. */
  lemma {:induction false} ConfiguredSuits(ctx: Context, args: seq<string>, rule: Rule)
    requires IsTable(ctx.table) && IsResponseTable(ctx.table) && Configures(ctx, args, rule)
    ensures Suits(rule, FieldNames(ctx.table), ChainNames(ctx.table))
  {
    hide Configures, Spells, HandlerOf, Lower;
    assert WellFormed(ctx, rule) by { UnpackConfigures(ctx, args, rule); }
    var table := ctx.table;
    HandlerInTable(table, rule.key);
    if InTable(table, rule.key) {
      var i :| 0 <= i < |table| && SameName(rule.key, table[i].0);
      HandlerAt(table, rule.key, i);
      SameLast(table[i].0, rule.key);
      OnlyEntry(table, rule.key, i);
    }
  }

  lemma {:induction false} OnlyEntry(table: seq<(string, Handler)>, key: string, i: nat)
    requires IsResponseTable(table) && i < |table| && SameName(key, table[i].0)
    ensures Lower(key) in FieldNames(table) <==> table[i].1 == Builtin || table[i].1 == ContentLength
    ensures Lower(key) in ChainNames(table) <==> table[i].1 == Multi
  {
    hide Lower;
    assert forall j :: 0 <= j < |table| && Lower(table[j].0) == Lower(key) ==> j == i;
  }
}
