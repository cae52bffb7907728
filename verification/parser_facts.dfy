/**
  * What a successful plap_parse_args guarantees: every argv token is consumed
  * exactly once, tokens are classified by their first character, positional
  * entries follow the positional tokens in order, and each option definition
  * is matched at most once.
  */
module ParserFacts {
  import opened Wrappers
  import opened PlapTypes
  import opened Schema
  import opened Parser

  /** How many tokens were consumed as `x`. */
  function Count(rs: seq<Role>, x: Role): nat
  {
    if rs == [] then 0 else Count(rs[..|rs| - 1], x) + (if rs[|rs| - 1] == x then 1 else 0)
  }

  /** The tokens consumed as `x`, in argv order. */
  function Select(toks: seq<string>, rs: seq<Role>, x: Role): seq<string>
    requires |toks| == |rs|
  {
    if rs == [] then []
    else Select(toks[..|toks| - 1], rs[..|rs| - 1], x) + (if rs[|rs| - 1] == x then [toks[|toks| - 1]] else [])
  }

  lemma CountSnoc(rs: seq<Role>, r: Role, x: Role)
    ensures Count(rs + [r], x) == Count(rs, x) + (if r == x then 1 else 0)
  {
    assert (rs + [r])[..|rs|] == rs;
  }

  lemma SelectSnoc(toks: seq<string>, rs: seq<Role>, t: string, r: Role, x: Role)
    requires |toks| == |rs|
    ensures Select(toks + [t], rs + [r], x) == Select(toks, rs, x) + (if r == x then [t] else [])
  {
    assert (toks + [t])[..|toks|] == toks;
    assert (rs + [r])[..|rs|] == rs;
  }

  /** Every consumed token has exactly one role. */
  lemma {:induction false} CountPartition(rs: seq<Role>)
    ensures Count(rs, Program) + Count(rs, Positional) + Count(rs, OptionName) + Count(rs, OptionValue) == |rs|
  {
    if rs != [] {
      CountPartition(rs[..|rs| - 1]);
    }
  }

  /** The option table differs from the schema's at most in the `matched` flags. */
  ghost predicate SchemaKept(odefs0: seq<OptionDef>, odefs: seq<OptionDef>)
  {
    |odefs| == |odefs0|
    && forall i :: 0 <= i < |odefs| ==> odefs[i].(matched := false) == odefs0[i].(matched := false)
  }

  /** Definition lookup depends on the names only, not on the `matched` flags. */
  lemma {:induction false} FindIgnoresFlags(odefs0: seq<OptionDef>, odefs: seq<OptionDef>, sh: Option<string>, l: Option<string>)
    requires SchemaKept(odefs0, odefs)
    ensures FindOptionDef(odefs, sh, l) == FindOptionDef(odefs0, sh, l)
  {
    if odefs != [] {
      assert odefs[0].(matched := false) == odefs0[0].(matched := false);
      assert Matches(odefs[0], sh, l) == Matches(odefs0[0], sh, l);
      assert SchemaKept(odefs0[1..], odefs[1..]) by {
        forall i | 0 <= i < |odefs[1..]|
          ensures odefs[1..][i].(matched := false) == odefs0[1..][i].(matched := false)
        {
          assert odefs[1..][i] == odefs[i + 1];
        }
      }
      FindIgnoresFlags(odefs0[1..], odefs[1..], sh, l);
    }
  }

  /** The role of argv[j] agrees with the token and with the schema. */
  ghost predicate RoleOk(argv: seq<string>, odefs0: seq<OptionDef>, roles: seq<Role>, j: nat)
    requires 1 <= j < |roles| <= |argv|
  {
    match roles[j]
    case Program => false
    case Positional => !IsOptionToken(argv[j])
    case OptionName =>
      IsOptionToken(argv[j])
      && var f := LookupName(odefs0, argv[j][1..]);
         f.Some? && f.value < |odefs0|
         && (odefs0[f.value].needsValue <==> j + 1 < |roles| && roles[j + 1] == OptionValue)
    case OptionValue => roles[j - 1] == OptionName
  }

  /** The roles of the first `k` tokens, and how many entries they produced. */
  ghost predicate RolesInv(argv: seq<string>, odefs0: seq<OptionDef>, k: nat, st: ScanState)
  {
    1 <= k <= |argv| && |st.roles| == k && st.roles[0] == Program
    && (forall j :: 1 <= j < k ==> RoleOk(argv, odefs0, st.roles, j))
    && Count(st.roles, OptionName) == |st.optional|
    && Count(st.roles, Positional) == |st.positional|
    && Count(st.roles, Program) == 1
  }

  /** The positional entries are those of the tokens consumed as positionals so far. */
  ghost predicate PosInv(argv: seq<string>, pdefs: seq<PositionalDef>, k: nat, st: ScanState, parseInt: string -> int)
  {
    k <= |argv| && |st.roles| == k
    && st.positional == PositionalsFor(Select(argv[..k], st.roles, Positional), pdefs, parseInt)
  }

  /** Each option entry names a distinct definition, which was unmatched before and is matched now. */
  ghost predicate OptInv(odefs0: seq<OptionDef>, st: ScanState)
  {
    SchemaKept(odefs0, st.odefs)
    && |st.matchedDefs| == |st.optional|
    && (forall i :: 0 <= i < |st.matchedDefs| ==>
          st.matchedDefs[i] < |odefs0| && !odefs0[st.matchedDefs[i]].matched
          && LookupEntry(odefs0, st.optional[i]) == Some(st.matchedDefs[i]))
    && (forall i, j :: 0 <= i < j < |st.matchedDefs| ==> st.matchedDefs[i] != st.matchedDefs[j])
    && (forall i :: 0 <= i < |st.optional| ==> st.optional[i].shortName.None? || st.optional[i].longName.None?)
    && (forall d :: 0 <= d < |odefs0| ==> (st.odefs[d].matched <==> odefs0[d].matched || d in st.matchedDefs))
  }

  ghost predicate Inv(argv: seq<string>, pdefs: seq<PositionalDef>, odefs0: seq<OptionDef>, k: nat, st: ScanState, parseInt: string -> int)
  {
    RolesInv(argv, odefs0, k, st) && PosInv(argv, pdefs, k, st, parseInt) && OptInv(odefs0, st)
  }

  lemma PositionalsForSnoc(texts: seq<string>, t: string, pdefs: seq<PositionalDef>, parseInt: string -> int)
    ensures PositionalsFor(texts + [t], pdefs, parseInt)
         == PositionalsFor(texts, pdefs, parseInt) + [PositionalFor(SlotFor(pdefs, |texts|), t, parseInt)]
  {
  }

  lemma InitialInv(argv: seq<string>, pdefs: seq<PositionalDef>, odefs0: seq<OptionDef>, parseInt: string -> int)
    requires |argv| >= 1
    ensures Inv(argv, pdefs, odefs0, 1, InitialState(odefs0), parseInt)
  {
    var st := InitialState(odefs0);
    CountSnoc([], Program, OptionName);
    CountSnoc([], Program, Positional);
    CountSnoc([], Program, Program);
    SelectSnoc([], [], argv[0], Program, Positional);
    assert argv[..1] == [] + [argv[0]];
  }

  lemma PositionalStepKeepsRoles(argv: seq<string>, pdefs: seq<PositionalDef>, odefs0: seq<OptionDef>, k: nat, st: ScanState, parseInt: string -> int)
    requires RolesInv(argv, odefs0, k, st)
    requires k < |argv| && !IsOptionToken(argv[k])
    ensures RolesInv(argv, odefs0, k + 1, AfterPositional(st, pdefs, argv[k], parseInt))
  {
    var st' := AfterPositional(st, pdefs, argv[k], parseInt);
    CountSnoc(st.roles, Positional, OptionName);
    CountSnoc(st.roles, Positional, Positional);
    CountSnoc(st.roles, Positional, Program);
    forall j | 1 <= j < k + 1
      ensures RoleOk(argv, odefs0, st'.roles, j)
    {
      if j < k {
        assert RoleOk(argv, odefs0, st.roles, j);
        assert st'.roles[j] == st.roles[j];
        if j + 1 < k {
          assert st'.roles[j + 1] == st.roles[j + 1];
        }
        assert j > 0 ==> st'.roles[j - 1] == st.roles[j - 1];
      }
    }
  }

  /** An option token that names definition `d` of the schema adds its roles and one option entry. */
  lemma OptionRolesStep(argv: seq<string>, odefs0: seq<OptionDef>, k: nat, st: ScanState, d: nat, tookValue: bool, st': ScanState)
    requires RolesInv(argv, odefs0, k, st)
    requires k < |argv| && IsOptionToken(argv[k])
    requires LookupName(odefs0, argv[k][1..]) == Some(d) && d < |odefs0|
    requires (odefs0[d].needsValue <==> tookValue) && (tookValue ==> k + 1 < |argv|)
    requires st'.roles == st.roles + (if tookValue then [OptionName, OptionValue] else [OptionName])
    requires |st'.optional| == |st.optional| + 1 && |st'.positional| == |st.positional|
    ensures RolesInv(argv, odefs0, k + 1 + (if tookValue then 1 else 0), st')
  {
    var k' := k + 1 + (if tookValue then 1 else 0);
    forall x: Role | x != OptionValue
      ensures Count(st'.roles, x) == Count(st.roles, x) + (if x == OptionName then 1 else 0)
    {
      CountSnoc(st.roles, OptionName, x);
      if tookValue {
        CountSnoc(st.roles + [OptionName], OptionValue, x);
        assert st.roles + [OptionName] + [OptionValue] == st'.roles;
      }
    }
    forall j | 1 <= j < k'
      ensures RoleOk(argv, odefs0, st'.roles, j)
    {
      if j < k {
        assert RoleOk(argv, odefs0, st.roles, j);
        assert st'.roles[j] == st.roles[j];
        if j + 1 < k {
          assert st'.roles[j + 1] == st.roles[j + 1];
        }
        assert st'.roles[j - 1] == st.roles[j - 1];
      } else if j == k {
        assert st'.roles[j] == OptionName;
      } else {
        assert st'.roles[j] == OptionValue && st'.roles[j - 1] == OptionName;
      }
    }
  }

  lemma OptionStepKeepsRoles(argv: seq<string>, pdefs: seq<PositionalDef>, odefs0: seq<OptionDef>, k: nat, st: ScanState,
                             parseInt: string -> int, step: OptionStep)
    requires RolesInv(argv, odefs0, k, st) && SchemaKept(odefs0, st.odefs)
    requires k < |argv| && IsOptionToken(argv[k])
    requires ParseOptionSpec(argv[k][1..], argv, k + 1, st.odefs, parseInt) == Ok(step)
    ensures step.defIdx < |st.odefs|
    ensures RolesInv(argv, odefs0, k + 1 + (if step.tookValue then 1 else 0), AfterOption(st, step))
  {
    var value := argv[k][1..];
    ParseOptionCases(value, argv, k + 1, st.odefs, parseInt);
    if |value| > 0 && value[0] == '-' {
      FindIgnoresFlags(odefs0, st.odefs, None, Some(value[1..]));
    } else {
      FindIgnoresFlags(odefs0, st.odefs, Some(value), None);
    }
    assert odefs0[step.defIdx].needsValue == st.odefs[step.defIdx].needsValue by {
      assert st.odefs[step.defIdx].(matched := false) == odefs0[step.defIdx].(matched := false);
    }
    OptionRolesStep(argv, odefs0, k, st, step.defIdx, step.tookValue, AfterOption(st, step));
  }

  lemma PositionalStepKeepsPositionals(argv: seq<string>, pdefs: seq<PositionalDef>, k: nat, st: ScanState, parseInt: string -> int)
    requires PosInv(argv, pdefs, k, st, parseInt)
    requires k < |argv| && !IsOptionToken(argv[k])
    ensures PosInv(argv, pdefs, k + 1, AfterPositional(st, pdefs, argv[k], parseInt), parseInt)
  {
    var st' := AfterPositional(st, pdefs, argv[k], parseInt);
    var texts := Select(argv[..k], st.roles, Positional);
    assert argv[..k + 1] == argv[..k] + [argv[k]];
    SelectSnoc(argv[..k], st.roles, argv[k], Positional, Positional);
    PositionalsForSnoc(texts, argv[k], pdefs, parseInt);
  }

  lemma OptionStepKeepsPositionals(argv: seq<string>, pdefs: seq<PositionalDef>, k: nat, st: ScanState,
                                   parseInt: string -> int, step: OptionStep)
    requires PosInv(argv, pdefs, k, st, parseInt)
    requires k < |argv| && IsOptionToken(argv[k])
    requires ParseOptionSpec(argv[k][1..], argv, k + 1, st.odefs, parseInt) == Ok(step)
    ensures step.defIdx < |st.odefs|
    ensures PosInv(argv, pdefs, k + 1 + (if step.tookValue then 1 else 0), AfterOption(st, step), parseInt)
  {
    ParseOptionCases(argv[k][1..], argv, k + 1, st.odefs, parseInt);
    var st' := AfterOption(st, step);
    assert argv[..k + 1] == argv[..k] + [argv[k]];
    SelectSnoc(argv[..k], st.roles, argv[k], OptionName, Positional);
    if step.tookValue {
      assert argv[..k + 2] == argv[..k + 1] + [argv[k + 1]];
      assert st'.roles == st.roles + [OptionName] + [OptionValue];
      SelectSnoc(argv[..k + 1], st.roles + [OptionName], argv[k + 1], OptionValue, Positional);
    }
  }

  /** Matching an unmatched definition `d` with an entry that finds it again keeps the option invariant. */
  lemma OptionOptsStep(odefs0: seq<OptionDef>, st: ScanState, step: OptionStep)
    requires OptInv(odefs0, st)
    requires step.defIdx < |st.odefs| && !st.odefs[step.defIdx].matched
    requires LookupEntry(odefs0, step.opt) == Some(step.defIdx)
    requires step.opt.shortName.None? || step.opt.longName.None?
    ensures OptInv(odefs0, AfterOption(st, step))
  {
    var st' := AfterOption(st, step);
    var d := step.defIdx;
    assert !odefs0[d].matched && d !in st.matchedDefs;
    assert SchemaKept(odefs0, st'.odefs) by {
      forall i | 0 <= i < |st'.odefs|
        ensures st'.odefs[i].(matched := false) == odefs0[i].(matched := false)
      {
        assert st.odefs[i].(matched := false) == odefs0[i].(matched := false);
      }
    }
    forall i | 0 <= i < |st'.matchedDefs|
      ensures st'.matchedDefs[i] < |odefs0| && !odefs0[st'.matchedDefs[i]].matched
      ensures LookupEntry(odefs0, st'.optional[i]) == Some(st'.matchedDefs[i])
      ensures st'.optional[i].shortName.None? || st'.optional[i].longName.None?
    {
      if i < |st.matchedDefs| {
        assert st'.matchedDefs[i] == st.matchedDefs[i] && st'.optional[i] == st.optional[i];
      }
    }
    forall i, j | 0 <= i < j < |st'.matchedDefs|
      ensures st'.matchedDefs[i] != st'.matchedDefs[j]
    {
      if j < |st.matchedDefs| {
        assert st'.matchedDefs[i] == st.matchedDefs[i] && st'.matchedDefs[j] == st.matchedDefs[j];
      } else {
        assert st'.matchedDefs[i] == st.matchedDefs[i] && st'.matchedDefs[j] == d;
      }
    }
  }

  lemma OptionStepKeepsOptions(argv: seq<string>, odefs0: seq<OptionDef>, k: nat, st: ScanState,
                               parseInt: string -> int, step: OptionStep)
    requires OptInv(odefs0, st)
    requires k < |argv| && IsOptionToken(argv[k])
    requires ParseOptionSpec(argv[k][1..], argv, k + 1, st.odefs, parseInt) == Ok(step)
    ensures step.defIdx < |st.odefs|
    ensures OptInv(odefs0, AfterOption(st, step))
  {
    ParseOptionCases(argv[k][1..], argv, k + 1, st.odefs, parseInt);
    var o := step.opt;
    if o.longName.Some? {
      FindIgnoresFlags(odefs0, st.odefs, None, o.longName);
    } else {
      FindIgnoresFlags(odefs0, st.odefs, o.shortName, None);
    }
    OptionOptsStep(odefs0, st, step);
  }

  lemma PositionalStepKeepsOptions(odefs0: seq<OptionDef>, pdefs: seq<PositionalDef>, st: ScanState, tok: string,
                                   parseInt: string -> int)
    requires OptInv(odefs0, st)
    ensures OptInv(odefs0, AfterPositional(st, pdefs, tok, parseInt))
  {
  }

  /** The invariant holds of whatever state the rest of the pass ends in. */
  lemma {:induction false} ScanKeepsInv(argv: seq<string>, pdefs: seq<PositionalDef>, odefs0: seq<OptionDef>, k: nat,
                                        st: ScanState, parseInt: string -> int, fin: ScanState)
    requires Inv(argv, pdefs, odefs0, k, st, parseInt)
    requires Scan(argv, pdefs, k, st, parseInt) == Ok(fin)
    ensures Inv(argv, pdefs, odefs0, |argv|, fin, parseInt)
    decreases |argv| - k
  {
    if k < |argv| {
      var tok := argv[k];
      if IsOptionToken(tok) {
        var spec := ParseOptionSpec(tok[1..], argv, k + 1, st.odefs, parseInt);
        assert spec.Ok?;
        var step := spec.value;
        ScanOptionOk(argv, pdefs, k, st, parseInt, step);
        OptionStepKeepsRoles(argv, pdefs, odefs0, k, st, parseInt, step);
        OptionStepKeepsPositionals(argv, pdefs, k, st, parseInt, step);
        OptionStepKeepsOptions(argv, odefs0, k, st, parseInt, step);
        ScanKeepsInv(argv, pdefs, odefs0, k + 1 + (if step.tookValue then 1 else 0), AfterOption(st, step), parseInt, fin);
      } else {
        ScanPositional(argv, pdefs, k, st, parseInt);
        PositionalStepKeepsRoles(argv, pdefs, odefs0, k, st, parseInt);
        PositionalStepKeepsPositionals(argv, pdefs, k, st, parseInt);
        PositionalStepKeepsOptions(odefs0, pdefs, st, tok, parseInt);
        ScanKeepsInv(argv, pdefs, odefs0, k + 1, AfterPositional(st, pdefs, tok, parseInt), parseInt, fin);
      }
    }
  }

  /** The invariant of a successful parse. */
  lemma ParseInv(argv: seq<string>, pdefs: seq<PositionalDef>, odefs: seq<OptionDef>, parseInt: string -> int, st: ScanState)
    requires ParseSpec(argv, pdefs, odefs, parseInt) == Ok(st)
    ensures Inv(argv, pdefs, odefs, |argv|, st, parseInt)
  {
    InitialInv(argv, pdefs, odefs, parseInt);
    ScanKeepsInv(argv, pdefs, odefs, 1, InitialState(odefs), parseInt, st);
  }

  /**
    * Each argv token is consumed exactly once: argv[0] as the program name and
    * every later token as a positional, an option or an option's value. So the
    * argc-sized result tables never overflow.
    */
  lemma ParseConsumesEachTokenOnce(argv: seq<string>, pdefs: seq<PositionalDef>, odefs: seq<OptionDef>,
                                   parseInt: string -> int, st: ScanState)
    requires ParseSpec(argv, pdefs, odefs, parseInt) == Ok(st)
    ensures |st.roles| == |argv| && st.roles[0] == Program
    ensures forall j :: 1 <= j < |argv| ==> st.roles[j] != Program
    ensures |st.positional| == Count(st.roles, Positional)
    ensures |st.optional| == Count(st.roles, OptionName)
    ensures |st.positional| + |st.optional| + Count(st.roles, OptionValue) == |argv| - 1
    ensures |st.positional| + |st.optional| <= |argv| - 1
  {
    ParseInv(argv, pdefs, odefs, parseInt, st);
    CountPartition(st.roles);
    forall j | 1 <= j < |argv| ensures st.roles[j] != Program {
      assert RoleOk(argv, odefs, st.roles, j);
    }
  }

  /**
    * A token not consumed as a value is an option iff it starts with `-`; an
    * option names a definition of the schema, and it is followed by a value
    * token iff that definition needs a value.
    */
  lemma ParseClassifiesTokens(argv: seq<string>, pdefs: seq<PositionalDef>, odefs: seq<OptionDef>,
                              parseInt: string -> int, st: ScanState, j: nat)
    requires ParseSpec(argv, pdefs, odefs, parseInt) == Ok(st)
    requires 1 <= j < |argv|
    ensures |st.roles| == |argv|
    ensures st.roles[j] != OptionValue ==> (st.roles[j] == OptionName <==> IsOptionToken(argv[j]))
    ensures st.roles[j] != OptionValue ==> (st.roles[j] == Positional <==> !IsOptionToken(argv[j]))
    ensures st.roles[j] == OptionName ==>
              var f := LookupName(odefs, argv[j][1..]);
              f.Some? && f.value < |odefs|
              && (odefs[f.value].needsValue <==> j + 1 < |argv| && st.roles[j + 1] == OptionValue)
    ensures st.roles[j] == OptionValue ==> st.roles[j - 1] == OptionName
  {
    ParseInv(argv, pdefs, odefs, parseInt, st);
    assert RoleOk(argv, odefs, st.roles, j);
  }

  /** The positional entries of a finished pass, read off the invariant. */
  lemma PositionalsFromInv(argv: seq<string>, pdefs: seq<PositionalDef>, odefs: seq<OptionDef>,
                           parseInt: string -> int, st: ScanState)
    requires Inv(argv, pdefs, odefs, |argv|, st, parseInt)
    ensures |st.roles| == |argv|
    ensures st.positional == PositionalsFor(Select(argv, st.roles, Positional), pdefs, parseInt)
    ensures var texts := Select(argv, st.roles, Positional);
            forall i :: 0 <= i < |st.positional| ==>
              (i < |pdefs| ==> st.positional[i] == PositionalArg(Some(pdefs[i].name), Coerce(pdefs[i].parseAs, texts[i], parseInt)))
              && (i >= |pdefs| ==> st.positional[i] == PositionalArg(None, Str(texts[i])))
  {
    assert argv[..|argv|] == argv;
    var texts := Select(argv, st.roles, Positional);
    forall i | 0 <= i < |st.positional|
      ensures i < |pdefs| ==> st.positional[i] == PositionalArg(Some(pdefs[i].name), Coerce(pdefs[i].parseAs, texts[i], parseInt))
      ensures i >= |pdefs| ==> st.positional[i] == PositionalArg(None, Str(texts[i]))
    {
      assert st.positional[i] == PositionalFor(SlotFor(pdefs, i), texts[i], parseInt);
    }
  }

  /**
    * The k-th positional token yields the k-th positional entry: named and
    * typed by the k-th slot when there is one, otherwise a nameless verbatim
    * string.
    */
  lemma ParsePositionalsInOrder(argv: seq<string>, pdefs: seq<PositionalDef>, odefs: seq<OptionDef>,
                                parseInt: string -> int, st: ScanState)
    requires ParseSpec(argv, pdefs, odefs, parseInt) == Ok(st)
    ensures |st.roles| == |argv|
    ensures st.positional == PositionalsFor(Select(argv, st.roles, Positional), pdefs, parseInt)
    ensures var texts := Select(argv, st.roles, Positional);
            forall i :: 0 <= i < |st.positional| ==>
              (i < |pdefs| ==> st.positional[i] == PositionalArg(Some(pdefs[i].name), Coerce(pdefs[i].parseAs, texts[i], parseInt)))
              && (i >= |pdefs| ==> st.positional[i] == PositionalArg(None, Str(texts[i])))
  {
    ParseInv(argv, pdefs, odefs, parseInt, st);
    PositionalsFromInv(argv, pdefs, odefs, parseInt, st);
  }

  /**
    * Each option entry names, by the form that was typed, a definition that was
    * unmatched before the parse; no two entries name the same definition; and
    * afterwards exactly those definitions, besides any flagged before the
    * parse, carry the `matched` flag.
    */
  lemma ParseMatchesEachOptionOnce(argv: seq<string>, pdefs: seq<PositionalDef>, odefs: seq<OptionDef>,
                                   parseInt: string -> int, st: ScanState)
    requires ParseSpec(argv, pdefs, odefs, parseInt) == Ok(st)
    ensures forall i :: 0 <= i < |st.optional| ==>
              var f := LookupEntry(odefs, st.optional[i]);
              f.Some? && f.value < |odefs| && !odefs[f.value].matched
    ensures forall i, j :: 0 <= i < j < |st.optional| ==>
              LookupEntry(odefs, st.optional[i]) != LookupEntry(odefs, st.optional[j])
    ensures forall i :: 0 <= i < |st.optional| ==> st.optional[i].shortName.None? || st.optional[i].longName.None?
    ensures SchemaKept(odefs, st.odefs)
    ensures forall d :: 0 <= d < |odefs| ==>
              (st.odefs[d].matched <==>
                 odefs[d].matched || exists i :: 0 <= i < |st.optional| && LookupEntry(odefs, st.optional[i]) == Some(d))
  {
    ParseInv(argv, pdefs, odefs, parseInt, st);
    forall d | 0 <= d < |odefs|
      ensures st.odefs[d].matched <==>
                odefs[d].matched || exists i :: 0 <= i < |st.optional| && LookupEntry(odefs, st.optional[i]) == Some(d)
    {
      if d in st.matchedDefs {
        var i :| 0 <= i < |st.matchedDefs| && st.matchedDefs[i] == d;
        assert LookupEntry(odefs, st.optional[i]) == Some(d);
      }
    }
  }

  /** argv[j] was consumed as an option name, and the name typed there looks up definition `d`. */
  ghost predicate GivenAt(argv: seq<string>, odefs0: seq<OptionDef>, roles: seq<Role>, j: int, d: nat)
  {
    1 <= j < |argv| && j < |roles| && roles[j] == OptionName
    && IsOptionToken(argv[j]) && LookupName(odefs0, argv[j][1..]) == Some(d)
  }

  /** Some argv token consumed as an option name names definition `d`. */
  ghost predicate Given(argv: seq<string>, odefs0: seq<OptionDef>, roles: seq<Role>, d: nat)
  {
    exists j :: GivenAt(argv, odefs0, roles, j, d)
  }

  /**
    * The option tokens among the first `k` tokens, whose roles are `roles`,
    * against the definitions `mdefs` the option entries matched: each names
    * one of `mdefs`, each of `mdefs` was named by some token, and no two
    * tokens name the same definition.
    */
  ghost predicate TokensNamed(argv: seq<string>, odefs0: seq<OptionDef>, k: nat, roles: seq<Role>, mdefs: seq<nat>)
  {
    1 <= k <= |argv| && |roles| == k
    && (forall j :: 1 <= j < k && roles[j] == OptionName ==>
          IsOptionToken(argv[j]) && LookupName(odefs0, argv[j][1..]).Some?
          && LookupName(odefs0, argv[j][1..]).value in mdefs)
    && (forall i :: 0 <= i < |mdefs| ==> Given(argv, odefs0, roles, mdefs[i]))
    && (forall j1, j2, d :: j1 < j2 && GivenAt(argv, odefs0, roles, j1, d) ==> !GivenAt(argv, odefs0, roles, j2, d))
  }

  /** The option tokens of a pass that has read `k` tokens, against its option entries. */
  ghost predicate TokInv(argv: seq<string>, odefs0: seq<OptionDef>, k: nat, st: ScanState)
  {
    TokensNamed(argv, odefs0, k, st.roles, st.matchedDefs)
  }

  /** Extending the roles keeps which earlier tokens name which definition. */
  lemma GivenAtExtend(argv: seq<string>, odefs0: seq<OptionDef>, roles: seq<Role>, more: seq<Role>)
    ensures forall j, e :: j < |roles| ==> (GivenAt(argv, odefs0, roles + more, j, e) <==> GivenAt(argv, odefs0, roles, j, e))
  {
    forall j, e | j < |roles| ensures GivenAt(argv, odefs0, roles + more, j, e) <==> GivenAt(argv, odefs0, roles, j, e) {
      if 0 <= j {
        assert (roles + more)[j] == roles[j];
      }
    }
  }

  /** A token consumed as anything but an option name adds no name and no entry. */
  lemma OtherRoleKeepsTokens(argv: seq<string>, odefs0: seq<OptionDef>, k: nat, roles: seq<Role>, mdefs: seq<nat>, r: Role)
    requires TokensNamed(argv, odefs0, k, roles, mdefs)
    requires k < |argv| && r != OptionName
    ensures TokensNamed(argv, odefs0, k + 1, roles + [r], mdefs)
  {
    var roles' := roles + [r];
    GivenAtExtend(argv, odefs0, roles, [r]);
    assert roles'[k] == r;
    forall j | 1 <= j < k + 1 && roles'[j] == OptionName
      ensures IsOptionToken(argv[j]) && LookupName(odefs0, argv[j][1..]).Some?
           && LookupName(odefs0, argv[j][1..]).value in mdefs
    {
      assert j < k && roles[j] == OptionName;
    }
    forall i | 0 <= i < |mdefs|
      ensures Given(argv, odefs0, roles', mdefs[i])
    {
      var j :| GivenAt(argv, odefs0, roles, j, mdefs[i]);
      assert GivenAt(argv, odefs0, roles', j, mdefs[i]);
    }
    forall j1, j2, e | j1 < j2 && GivenAt(argv, odefs0, roles', j1, e)
      ensures !GivenAt(argv, odefs0, roles', j2, e)
    {
      assert GivenAt(argv, odefs0, roles, j1, e);
    }
  }

  /** A positional token adds no option name and no entry. */
  lemma PositionalStepKeepsTokens(argv: seq<string>, pdefs: seq<PositionalDef>, odefs0: seq<OptionDef>, k: nat, st: ScanState,
                                  parseInt: string -> int)
    requires TokInv(argv, odefs0, k, st)
    requires k < |argv|
    ensures TokInv(argv, odefs0, k + 1, AfterPositional(st, pdefs, argv[k], parseInt))
  {
    OtherRoleKeepsTokens(argv, odefs0, k, st.roles, st.matchedDefs, Positional);
  }

  /** The definition an accepted option token finds is one no entry matched so far. */
  lemma OptionFindsFreshDefinition(argv: seq<string>, odefs0: seq<OptionDef>, k: nat, st: ScanState,
                                   parseInt: string -> int, step: OptionStep)
    requires OptInv(odefs0, st)
    requires k < |argv| && IsOptionToken(argv[k])
    requires ParseOptionSpec(argv[k][1..], argv, k + 1, st.odefs, parseInt) == Ok(step)
    ensures step.defIdx < |st.odefs|
    ensures LookupName(odefs0, argv[k][1..]) == Some(step.defIdx) && step.defIdx !in st.matchedDefs
    ensures step.tookValue ==> k + 1 < |argv|
  {
    var value := argv[k][1..];
    ParseOptionCases(value, argv, k + 1, st.odefs, parseInt);
    if |value| > 0 && value[0] == '-' {
      FindIgnoresFlags(odefs0, st.odefs, None, Some(value[1..]));
    } else {
      FindIgnoresFlags(odefs0, st.odefs, Some(value), None);
    }
  }

  /**
    * An option token at `k` that names a definition `d` no entry matched so
    * far keeps the token invariant once `d` is added to the matched ones.
    */
  lemma FreshOptionKeepsTokens(argv: seq<string>, odefs0: seq<OptionDef>, k: nat, roles: seq<Role>, mdefs: seq<nat>, d: nat)
    requires TokensNamed(argv, odefs0, k, roles, mdefs)
    requires k < |argv| && IsOptionToken(argv[k]) && LookupName(odefs0, argv[k][1..]) == Some(d) && d !in mdefs
    ensures TokensNamed(argv, odefs0, k + 1, roles + [OptionName], mdefs + [d])
  {
    var roles', mdefs' := roles + [OptionName], mdefs + [d];
    GivenAtExtend(argv, odefs0, roles, [OptionName]);
    assert roles'[k] == OptionName;
    assert GivenAt(argv, odefs0, roles', k, d);
    forall j | 1 <= j < k + 1 && roles'[j] == OptionName
      ensures IsOptionToken(argv[j]) && LookupName(odefs0, argv[j][1..]).Some?
           && LookupName(odefs0, argv[j][1..]).value in mdefs'
    {
      if j < k {
        assert roles[j] == OptionName;
      }
    }
    forall i | 0 <= i < |mdefs'|
      ensures Given(argv, odefs0, roles', mdefs'[i])
    {
      if i < |mdefs| {
        var j :| GivenAt(argv, odefs0, roles, j, mdefs[i]);
        assert GivenAt(argv, odefs0, roles', j, mdefs'[i]);
      } else {
        assert GivenAt(argv, odefs0, roles', k, mdefs'[i]);
      }
    }
    forall j1, j2, e | j1 < j2 && GivenAt(argv, odefs0, roles', j1, e)
      ensures !GivenAt(argv, odefs0, roles', j2, e)
    {
      if j2 < k {
        assert GivenAt(argv, odefs0, roles, j1, e);
      } else if j2 == k {
        assert roles[j1] == OptionName && e in mdefs;
      }
    }
  }

  /** An accepted option token, and its value if it takes one, keep the token invariant. */
  lemma OptionStepKeepsTokens(argv: seq<string>, odefs0: seq<OptionDef>, k: nat, st: ScanState,
                              parseInt: string -> int, step: OptionStep)
    requires TokInv(argv, odefs0, k, st) && OptInv(odefs0, st)
    requires k < |argv| && IsOptionToken(argv[k])
    requires ParseOptionSpec(argv[k][1..], argv, k + 1, st.odefs, parseInt) == Ok(step)
    ensures step.defIdx < |st.odefs|
    ensures TokInv(argv, odefs0, k + 1 + (if step.tookValue then 1 else 0), AfterOption(st, step))
  {
    OptionFindsFreshDefinition(argv, odefs0, k, st, parseInt, step);
    FreshOptionKeepsTokens(argv, odefs0, k, st.roles, st.matchedDefs, step.defIdx);
    if step.tookValue {
      OtherRoleKeepsTokens(argv, odefs0, k + 1, st.roles + [OptionName], st.matchedDefs + [step.defIdx], OptionValue);
      assert st.roles + [OptionName] + [OptionValue] == st.roles + [OptionName, OptionValue];
    }
  }

  /** One turn of the pass keeps the token invariant and the option invariant. */
  lemma StepKeepsTokInv(argv: seq<string>, pdefs: seq<PositionalDef>, odefs0: seq<OptionDef>, k: nat,
                        st: ScanState, parseInt: string -> int)
    requires TokInv(argv, odefs0, k, st) && OptInv(odefs0, st)
    requires k < |argv| && Step(argv, pdefs, k, st, parseInt).Ok?
    ensures var m := Step(argv, pdefs, k, st, parseInt).value;
            TokInv(argv, odefs0, m.next, m.st) && OptInv(odefs0, m.st)
  {
    var tok := argv[k];
    if IsOptionToken(tok) {
      var step := ParseOptionSpec(tok[1..], argv, k + 1, st.odefs, parseInt).value;
      OptionStepKeepsTokens(argv, odefs0, k, st, parseInt, step);
      OptionStepKeepsOptions(argv, odefs0, k, st, parseInt, step);
    } else {
      PositionalStepKeepsTokens(argv, pdefs, odefs0, k, st, parseInt);
      PositionalStepKeepsOptions(odefs0, pdefs, st, tok, parseInt);
    }
  }

  /** The token invariant holds of whatever state the rest of the pass ends in. */
  lemma {:induction false} ScanKeepsTokInv(argv: seq<string>, pdefs: seq<PositionalDef>, odefs0: seq<OptionDef>, k: nat,
                                           st: ScanState, parseInt: string -> int, fin: ScanState)
    requires TokInv(argv, odefs0, k, st) && OptInv(odefs0, st)
    requires Scan(argv, pdefs, k, st, parseInt) == Ok(fin)
    ensures TokInv(argv, odefs0, |argv|, fin)
    decreases |argv| - k
  {
    if k < |argv| {
      var m := Step(argv, pdefs, k, st, parseInt).value;
      StepKeepsTokInv(argv, pdefs, odefs0, k, st, parseInt);
      ScanKeepsTokInv(argv, pdefs, odefs0, m.next, m.st, parseInt, fin);
    }
  }

  /** The token invariant and the option invariant of a successful parse. */
  lemma ParseTokInv(argv: seq<string>, pdefs: seq<PositionalDef>, odefs: seq<OptionDef>, parseInt: string -> int, st: ScanState)
    requires ParseSpec(argv, pdefs, odefs, parseInt) == Ok(st)
    ensures TokInv(argv, odefs, |argv|, st) && OptInv(odefs, st)
  {
    ParseInv(argv, pdefs, odefs, parseInt, st);
    InitialInv(argv, pdefs, odefs, parseInt);
    ScanKeepsTokInv(argv, pdefs, odefs, 1, InitialState(odefs), parseInt, st);
  }

  /**
    * The same option given twice, under either of its names, is never
    * accepted: in a successful parse, no two option tokens name the same
    * definition.
    */
  lemma ParseRejectsRepeatedOption(argv: seq<string>, pdefs: seq<PositionalDef>, odefs: seq<OptionDef>,
                                   parseInt: string -> int, st: ScanState, j1: nat, j2: nat)
    requires ParseSpec(argv, pdefs, odefs, parseInt) == Ok(st)
    requires 1 <= j1 < j2 < |argv| && IsOptionToken(argv[j1]) && IsOptionToken(argv[j2])
    ensures |st.roles| == |argv|
    ensures st.roles[j1] == OptionName && st.roles[j2] == OptionName ==>
              LookupName(odefs, argv[j1][1..]) != LookupName(odefs, argv[j2][1..])
  {
    ParseTokInv(argv, pdefs, odefs, parseInt, st);
    if st.roles[j1] == OptionName && st.roles[j2] == OptionName {
      var d := LookupName(odefs, argv[j1][1..]).value;
      assert GivenAt(argv, odefs, st.roles, j1, d);
      assert !GivenAt(argv, odefs, st.roles, j2, d);
    }
  }

  /**
    * The option entries of a successful parse are those the command line
    * gave: some entry names definition `d` iff some argv token consumed as an
    * option name names `d`.
    */
  lemma ParseEntriesFollowOptionTokens(argv: seq<string>, pdefs: seq<PositionalDef>, odefs: seq<OptionDef>,
                                       parseInt: string -> int, st: ScanState, d: nat)
    requires ParseSpec(argv, pdefs, odefs, parseInt) == Ok(st)
    ensures (exists i :: 0 <= i < |st.optional| && LookupEntry(odefs, st.optional[i]) == Some(d))
        <==> (exists j :: GivenAt(argv, odefs, st.roles, j, d))
  {
    ParseTokInv(argv, pdefs, odefs, parseInt, st);
    if exists i :: 0 <= i < |st.optional| && LookupEntry(odefs, st.optional[i]) == Some(d) {
      var i :| 0 <= i < |st.optional| && LookupEntry(odefs, st.optional[i]) == Some(d);
      assert st.matchedDefs[i] == d;
    }
    if exists j :: GivenAt(argv, odefs, st.roles, j, d) {
      var j :| GivenAt(argv, odefs, st.roles, j, d);
      assert d in st.matchedDefs;
      var i :| 0 <= i < |st.matchedDefs| && st.matchedDefs[i] == d;
      assert LookupEntry(odefs, st.optional[i]) == Some(d);
    }
  }

  /** The schema of the worked examples below: `x`, a required integer, and the flag `-v` / `--verbose`. */
  const ExamplePositionals := [PositionalDef(IntKind, true, "x", None)]
  const ExampleOptions := [OptionDef(false, StringKind, false, Some("v"), "verbose", None)]

  /** `prog --verbose 42`: one flag entry under the long name and `x` holding atoi("42"). */
  lemma ExampleFlagAndInteger(parseInt: string -> int)
    ensures ResultOf(ParseSpec(["prog", "--verbose", "42"], ExamplePositionals, ExampleOptions, parseInt))
         == Ok(Args([PositionalArg(Some("x"), Int(parseInt("42")))], [OptionArg(None, Some("verbose"), NoValue)]))
  {
    var argv, pdefs := ["prog", "--verbose", "42"], ExamplePositionals;
    var st0 := InitialState(ExampleOptions);
    assert RequiredCount(pdefs) == 1;
    assert argv[1][1..] == "-verbose" && "-verbose"[1..] == "verbose";
    var step := OptionStep(OptionArg(None, Some("verbose"), NoValue), 0, false);
    assert ParseOptionSpec(argv[1][1..], argv, 2, st0.odefs, parseInt) == Ok(step);
    ScanOptionOk(argv, pdefs, 1, st0, parseInt, step);
    var st1 := AfterOption(st0, step);
    ScanPositional(argv, pdefs, 2, st1, parseInt);
    var st2 := AfterPositional(st1, pdefs, argv[2], parseInt);
    assert Scan(argv, pdefs, 3, st2, parseInt) == Ok(st2);
    assert st2.positional == [PositionalArg(Some("x"), Int(parseInt("42")))];
    assert ParseSpec(argv, pdefs, ExampleOptions, parseInt) == Ok(st2);
    assert st2.optional == [OptionArg(None, Some("verbose"), NoValue)];
    assert ResultOf(Ok(st2)) == Ok(Args(st2.positional, st2.optional));
  }

  /** `prog -v --verbose 42`: the second mention of the same option is refused. */
  lemma ExampleDuplicate(parseInt: string -> int)
    ensures ParseSpec(["prog", "-v", "--verbose", "42"], ExamplePositionals, ExampleOptions, parseInt)
         == Err(AlreadySupplied("--verbose"))
  {
    var argv, pdefs := ["prog", "-v", "--verbose", "42"], ExamplePositionals;
    var st0 := InitialState(ExampleOptions);
    assert RequiredCount(pdefs) == 1;
    assert argv[1][1..] == "v";
    var step := OptionStep(OptionArg(Some("v"), None, NoValue), 0, false);
    assert ParseOptionSpec(argv[1][1..], argv, 2, st0.odefs, parseInt) == Ok(step);
    ScanOptionOk(argv, pdefs, 1, st0, parseInt, step);
    var st1 := AfterOption(st0, step);
    assert argv[2][1..] == "-verbose" && "-verbose"[1..] == "verbose";
    assert LookupName(st1.odefs, argv[2][1..]) == Some(0);
    ScanOptionErr(argv, pdefs, 2, st1, parseInt, AlreadySupplied("-" + argv[2][1..]));
    assert "-" + argv[2][1..] == "--verbose";
  }

  /** `prog 42 --quiet`: an option the schema does not declare. */
  lemma ExampleUnknown(parseInt: string -> int)
    ensures ParseSpec(["prog", "42", "--quiet"], ExamplePositionals, ExampleOptions, parseInt)
         == Err(UnknownOption("--quiet"))
  {
    var argv, pdefs := ["prog", "42", "--quiet"], ExamplePositionals;
    var st0 := InitialState(ExampleOptions);
    assert RequiredCount(pdefs) == 1;
    ScanPositional(argv, pdefs, 1, st0, parseInt);
    var st1 := AfterPositional(st0, pdefs, argv[1], parseInt);
    assert argv[2][1..] == "-quiet" && "-quiet"[1..] == "quiet";
    assert LookupName(st1.odefs, argv[2][1..]).None?;
    ScanOptionErr(argv, pdefs, 2, st1, parseInt, UnknownOption("-" + argv[2][1..]));
    assert "-" + argv[2][1..] == "--quiet";
  }

  /** An option that takes a value, `-o` / `--output`. */
  const ValueOptions := [OptionDef(false, StringKind, true, Some("o"), "output", None)]

  /** `prog 42 -o`: the option's value is missing. */
  lemma ExampleMissingValue(parseInt: string -> int)
    ensures ParseSpec(["prog", "42", "-o"], ExamplePositionals, ValueOptions, parseInt) == Err(MissingValue("-o"))
  {
    var argv, pdefs := ["prog", "42", "-o"], ExamplePositionals;
    var st0 := InitialState(ValueOptions);
    assert RequiredCount(pdefs) == 1;
    ScanPositional(argv, pdefs, 1, st0, parseInt);
    var st1 := AfterPositional(st0, pdefs, argv[1], parseInt);
    assert argv[2][1..] == "o";
    assert LookupName(st1.odefs, argv[2][1..]) == Some(0);
    ScanOptionErr(argv, pdefs, 2, st1, parseInt, MissingValue("-" + argv[2][1..]));
    assert "-" + argv[2][1..] == "-o";
  }

  /**
    * `prog -o 42`: two tokens pass the check before the scan, but `42` is
    * consumed as the value of `-o`, so the check after the scan fails.
    */
  lemma ExampleValueIsNotPositional(parseInt: string -> int)
    ensures ParseSpec(["prog", "-o", "42"], ExamplePositionals, ValueOptions, parseInt) == Err(NotEnoughPositional)
  {
    var argv, pdefs := ["prog", "-o", "42"], ExamplePositionals;
    var st0 := InitialState(ValueOptions);
    assert RequiredCount(pdefs) == 1;
    assert argv[1][1..] == "o";
    var step := OptionStep(OptionArg(Some("o"), None, Str("42")), 0, true);
    assert ParseOptionSpec(argv[1][1..], argv, 2, st0.odefs, parseInt) == Ok(step);
    ScanOptionOk(argv, pdefs, 1, st0, parseInt, step);
    var st1 := AfterOption(st0, step);
    assert Scan(argv, pdefs, 3, st1, parseInt) == Ok(st1);
  }

  /** `prog 1 2 --output -v`: an extra positional is a nameless string, and a value may start with a dash. */
  lemma ExampleExtraAndDashValue(parseInt: string -> int)
    ensures ResultOf(ParseSpec(["prog", "1", "2", "--output", "-v"], ExamplePositionals, ValueOptions, parseInt))
         == Ok(Args([PositionalArg(Some("x"), Int(parseInt("1"))), PositionalArg(None, Str("2"))],
                    [OptionArg(None, Some("output"), Str("-v"))]))
  {
    var argv, pdefs := ["prog", "1", "2", "--output", "-v"], ExamplePositionals;
    var st0 := InitialState(ValueOptions);
    assert RequiredCount(pdefs) == 1;
    ScanPositional(argv, pdefs, 1, st0, parseInt);
    var st1 := AfterPositional(st0, pdefs, argv[1], parseInt);
    ScanPositional(argv, pdefs, 2, st1, parseInt);
    var st2 := AfterPositional(st1, pdefs, argv[2], parseInt);
    assert argv[3][1..] == "-output" && "-output"[1..] == "output";
    var step := OptionStep(OptionArg(None, Some("output"), Str("-v")), 0, true);
    assert ParseOptionSpec(argv[3][1..], argv, 4, st2.odefs, parseInt) == Ok(step);
    ScanOptionOk(argv, pdefs, 3, st2, parseInt, step);
    var st3 := AfterOption(st2, step);
    assert Scan(argv, pdefs, 5, st3, parseInt) == Ok(st3);
    assert st3.positional == [PositionalArg(Some("x"), Int(parseInt("1"))), PositionalArg(None, Str("2"))];
    assert ParseSpec(argv, pdefs, ValueOptions, parseInt) == Ok(st3);
    assert st3.optional == [OptionArg(None, Some("output"), Str("-v"))];
    assert ResultOf(Ok(st3)) == Ok(Args(st3.positional, st3.optional));
  }
}
