/**
  * plap_parse_args, plap_parse_option and plap_parse_positional.
  *
  * Scan and ParseSpec state the single left-to-right pass as functions; the
  * methods ParseOption and ParseArgs do the pass with the argv cursor and the
  * `matched` flags in the option table, and are proved to compute ParseSpec.
  */
module Parser {
  import opened Wrappers
  import opened PlapTypes
  import opened Schema
  import opened Cursor
  import opened Paths

  /** A token is an option iff its first character is `-`; the empty token is positional. */
  predicate IsOptionToken(tok: string)
  {
    |tok| > 0 && tok[0] == '-'
  }

  /** The definition for the k-th positional token, if the schema declares that many slots. */
  function SlotFor(pdefs: seq<PositionalDef>, k: nat): Option<PositionalDef>
  {
    if k < |pdefs| then Some(pdefs[k]) else None
  }

  /**
    * plap_parse_positional: a declared slot lends its name and its kind; a
    * token beyond the declared slots is kept verbatim as a nameless string.
    */
  function PositionalFor(pdef: Option<PositionalDef>, text: string, parseInt: string -> int): (p: PositionalArg)
    ensures pdef.Some? ==> p.name == Some(pdef.value.name)
    ensures pdef.Some? ==> p.value == Coerce(pdef.value.parseAs, text, parseInt)
    ensures pdef.None? ==> p.name.None? && p.value == Str(text)
  {
    match pdef
    case Some(d) => PositionalArg(Some(d.name), Coerce(d.parseAs, text, parseInt))
    case None => PositionalArg(None, Str(text))
  }

  /** The positional entries for the positional tokens `texts`, in order. */
  function PositionalsFor(texts: seq<string>, pdefs: seq<PositionalDef>, parseInt: string -> int): (ps: seq<PositionalArg>)
    ensures |ps| == |texts|
  {
    seq(|texts|, k requires 0 <= k < |texts| => PositionalFor(SlotFor(pdefs, k), texts[k], parseInt))
  }

  /**
    * The lookup of an option token with its first dash removed: `-X` (here
    * "-X" after `--`) searches long names only, anything else short names only.
    */
  function LookupName(odefs: seq<OptionDef>, value: string): Option<nat>
  {
    if |value| > 0 && value[0] == '-' then FindOptionDef(odefs, None, Some(value[1..]))
    else FindOptionDef(odefs, Some(value), None)
  }

  /** The definition a parsed option entry names, looked up by the form recorded in it. */
  function LookupEntry(odefs: seq<OptionDef>, o: OptionArg): Option<nat>
  {
    if o.longName.Some? then FindOptionDef(odefs, None, o.longName)
    else FindOptionDef(odefs, o.shortName, None)
  }

  /** The four ways plap_parse_option fails. */
  predicate IsOptionError(e: ParseError)
  {
    e.EmptyOption? || e.UnknownOption? || e.AlreadySupplied? || e.MissingValue?
  }

  /** A successful option: its entry, the definition it matched, and whether it took the next token as value. */
  datatype OptionStep = OptionStep(opt: OptionArg, defIdx: nat, tookValue: bool)

  /**
    * plap_parse_option on `value` (the token without its first dash) when the
    * next unread argv index is `k`.
    */
  function ParseOptionSpec(value: string, argv: seq<string>, k: nat, odefs: seq<OptionDef>, parseInt: string -> int)
    : (r: Result<OptionStep, ParseError>)
    ensures r.Ok? ==> r.value.defIdx < |odefs|
  {
    var token := "-" + value;
    if |value| == 0 || (value[0] == '-' && |value| == 1) then Err(EmptyOption)
    else
      var isLong := value[0] == '-';
      var found := LookupName(odefs, value);
      if found.None? then Err(UnknownOption(token))
      else if odefs[found.value].matched then Err(AlreadySupplied(token))
      else
        var od := odefs[found.value];
        var named := if isLong then OptionArg(None, Some(value[1..]), NoValue) else OptionArg(Some(value), None, NoValue);
        if !od.needsValue then Ok(OptionStep(named, found.value, false))
        else if k >= |argv| then Err(MissingValue(token))
        else Ok(OptionStep(named.(value := Coerce(od.parseAs, argv[k], parseInt)), found.value, true))
  }

  /**
    * The five outcomes of plap_parse_option: `-` and `--` are empty options;
    * otherwise the name is looked up (long after `--`, short after `-`) and is
    * unknown, already supplied, missing its value, or matched. A match records
    * only the typed form, which finds the same definition again, and takes the
    * next token as its value exactly when the definition needs one.
    */
  lemma ParseOptionCases(value: string, argv: seq<string>, k: nat, odefs: seq<OptionDef>, parseInt: string -> int)
    ensures var r := ParseOptionSpec(value, argv, k, odefs, parseInt);
            r == Err(EmptyOption) <==> value == "" || value == "-"
    ensures var r := ParseOptionSpec(value, argv, k, odefs, parseInt);
            r.Err? && r.error.UnknownOption? <==>
              value != "" && value != "-" && LookupName(odefs, value).None?
    ensures var r := ParseOptionSpec(value, argv, k, odefs, parseInt);
            r.Err? && r.error.AlreadySupplied? <==>
              value != "" && value != "-" && LookupName(odefs, value).Some?
              && odefs[LookupName(odefs, value).value].matched
    ensures var r := ParseOptionSpec(value, argv, k, odefs, parseInt);
            r.Err? && r.error.MissingValue? <==>
              value != "" && value != "-" && LookupName(odefs, value).Some?
              && !odefs[LookupName(odefs, value).value].matched
              && odefs[LookupName(odefs, value).value].needsValue && k >= |argv|
    ensures var r := ParseOptionSpec(value, argv, k, odefs, parseInt);
            r.Err? ==> r.error.EmptyOption? || r.error.UnknownOption? || r.error.AlreadySupplied? || r.error.MissingValue?
    ensures var r := ParseOptionSpec(value, argv, k, odefs, parseInt);
            r.Ok? ==> var s := r.value;
              LookupName(odefs, value) == Some(s.defIdx)
              && s.defIdx < |odefs| && !odefs[s.defIdx].matched
              && LookupEntry(odefs, s.opt) == Some(s.defIdx)
              && (s.tookValue <==> odefs[s.defIdx].needsValue)
              && (s.tookValue ==> k < |argv| && s.opt.value == Coerce(odefs[s.defIdx].parseAs, argv[k], parseInt))
              && (!s.tookValue ==> s.opt.value == NoValue)
    ensures var r := ParseOptionSpec(value, argv, k, odefs, parseInt);
            r.Ok? && value[0] == '-' ==> r.value.opt.shortName.None? && r.value.opt.longName == Some(value[1..])
    ensures var r := ParseOptionSpec(value, argv, k, odefs, parseInt);
            r.Ok? && value[0] != '-' ==> r.value.opt.shortName == Some(value) && r.value.opt.longName.None?
  {
  }

  /** What each argv token was consumed as. */
  datatype Role = Program | Positional | OptionName | OptionValue

  /**
    * The state of the pass: the entries so far, the option table with its
    * `matched` flags, and (for the proofs) the role of every consumed token and
    * the definition each option entry matched.
    */
  datatype ScanState = ScanState(
    positional: seq<PositionalArg>,
    optional: seq<OptionArg>,
    odefs: seq<OptionDef>,
    roles: seq<Role>,
    matchedDefs: seq<nat>)

  /** The option table once definition `d` has been supplied. */
  function MarkMatched(odefs: seq<OptionDef>, d: nat): seq<OptionDef>
    requires d < |odefs|
  {
    odefs[d := odefs[d].(matched := true)]
  }

  /** The state after an option token whose parse gave `step`. */
  function AfterOption(st: ScanState, step: OptionStep): ScanState
    requires step.defIdx < |st.odefs|
  {
    var d := step.defIdx;
    st.(optional := st.optional + [step.opt],
        odefs := MarkMatched(st.odefs, d),
        roles := st.roles + (if step.tookValue then [OptionName, OptionValue] else [OptionName]),
        matchedDefs := st.matchedDefs + [d])
  }

  /** The state after the positional token `tok`. */
  function AfterPositional(st: ScanState, pdefs: seq<PositionalDef>, tok: string, parseInt: string -> int): ScanState
  {
    st.(positional := st.positional + [PositionalFor(SlotFor(pdefs, |st.positional|), tok, parseInt)],
        roles := st.roles + [Positional])
  }

  /** Where the pass goes on after one turn of the loop: the next unread argv index and the new state. */
  datatype Moved = Moved(next: nat, st: ScanState)

  /**
    * One turn of the loop of plap_parse_args at argv index `k`: an option token
    * and, if its definition needs one, its value, or a single positional token.
    */
  function Step(argv: seq<string>, pdefs: seq<PositionalDef>, k: nat, st: ScanState, parseInt: string -> int)
    : (r: Result<Moved, ParseError>)
    requires k < |argv|
    ensures r.Ok? ==> k < r.value.next <= |argv|
    ensures r.Ok? ==> r.value.next <= k + 2 && (r.value.next == k + 2 ==> IsOptionToken(argv[k]))
    ensures !IsOptionToken(argv[k]) ==> r.Ok? && r.value.next == k + 1
    ensures r.Err? ==> IsOptionToken(argv[k]) && IsOptionError(r.error)
  {
    var tok := argv[k];
    if IsOptionToken(tok) then
      match ParseOptionSpec(tok[1..], argv, k + 1, st.odefs, parseInt)
      case Err(e) => Err(e)
      case Ok(step) => Ok(Moved(k + 1 + (if step.tookValue then 1 else 0), AfterOption(st, step)))
    else
      Ok(Moved(k + 1, AfterPositional(st, pdefs, tok, parseInt)))
  }

  /** The loop of plap_parse_args from argv index `k` on. */
  function Scan(argv: seq<string>, pdefs: seq<PositionalDef>, k: nat, st: ScanState, parseInt: string -> int)
    : (r: Result<ScanState, ParseError>)
    ensures r.Err? ==> IsOptionError(r.error)
    decreases |argv| - k
  {
    if k >= |argv| then Ok(st)
    else
      match Step(argv, pdefs, k, st, parseInt)
      case Err(e) => Err(e)
      case Ok(m) => Scan(argv, pdefs, m.next, m.st, parseInt)
  }

  /** One step of Scan on an option token that parses. */
  lemma ScanOptionOk(argv: seq<string>, pdefs: seq<PositionalDef>, k: nat, st: ScanState, parseInt: string -> int, step: OptionStep)
    requires k < |argv| && IsOptionToken(argv[k])
    requires ParseOptionSpec(argv[k][1..], argv, k + 1, st.odefs, parseInt) == Ok(step)
    ensures step.defIdx < |st.odefs|
    ensures Scan(argv, pdefs, k, st, parseInt)
         == Scan(argv, pdefs, k + 1 + (if step.tookValue then 1 else 0), AfterOption(st, step), parseInt)
  {
  }

  /** One step of Scan on an option token that fails. */
  lemma ScanOptionErr(argv: seq<string>, pdefs: seq<PositionalDef>, k: nat, st: ScanState, parseInt: string -> int, e: ParseError)
    requires k < |argv| && IsOptionToken(argv[k])
    requires ParseOptionSpec(argv[k][1..], argv, k + 1, st.odefs, parseInt) == Err(e)
    ensures Scan(argv, pdefs, k, st, parseInt) == Err(e)
  {
  }

  /** One step of Scan on a positional token. */
  lemma ScanPositional(argv: seq<string>, pdefs: seq<PositionalDef>, k: nat, st: ScanState, parseInt: string -> int)
    requires k < |argv| && !IsOptionToken(argv[k])
    ensures Scan(argv, pdefs, k, st, parseInt)
         == Scan(argv, pdefs, k + 1, AfterPositional(st, pdefs, argv[k], parseInt), parseInt)
  {
  }

  /** The state before the first token after argv[0]. */
  function InitialState(odefs: seq<OptionDef>): ScanState
  {
    ScanState([], [], odefs, [Program], [])
  }

  /**
    * plap_parse_args: the arity check before the pass, the pass, and the
    * check of the number of positional entries after it.
    */
  function ParseSpec(argv: seq<string>, pdefs: seq<PositionalDef>, odefs: seq<OptionDef>, parseInt: string -> int)
    : (r: Result<ScanState, ParseError>)
    ensures r == Err(NotEnoughArgs) <==> |argv| == 0 || |argv| - 1 < RequiredCount(pdefs)
    ensures var s := Scan(argv, pdefs, 1, InitialState(odefs), parseInt);
            r == Err(NotEnoughPositional) <==>
              |argv| >= 1 && |argv| - 1 >= RequiredCount(pdefs) && s.Ok? && |s.value.positional| < RequiredCount(pdefs)
    ensures var s := Scan(argv, pdefs, 1, InitialState(odefs), parseInt);
            r.Ok? <==>
              |argv| >= 1 && |argv| - 1 >= RequiredCount(pdefs) && s.Ok? && |s.value.positional| >= RequiredCount(pdefs)
    ensures var s := Scan(argv, pdefs, 1, InitialState(odefs), parseInt);
            r.Err? && IsOptionError(r.error) <==> |argv| >= 1 && |argv| - 1 >= RequiredCount(pdefs) && s.Err?
    ensures r.Ok? || (r.Err? && IsOptionError(r.error)) ==> r == Scan(argv, pdefs, 1, InitialState(odefs), parseInt)
    ensures r.Ok? ==> |r.value.positional| >= RequiredCount(pdefs)
  {
    if |argv| == 0 || |argv| - 1 < RequiredCount(pdefs) then Err(NotEnoughArgs)
    else match Scan(argv, pdefs, 1, InitialState(odefs), parseInt)
      case Err(e) => Err(e)
      case Ok(st) => if |st.positional| < RequiredCount(pdefs) then Err(NotEnoughPositional) else Ok(st)
  }

  /** How the start of plap_parse_args can end as written: a usage error, or strip_path_from_name(NULL). */
  datatype StartFault = Usage(error: ParseError) | NullDereference

  /**
    * The start of plap_parse_args as written: the name for usage text is
    * computed from argv[0] before the arity check, so with argc == 0 and no
    * stored name it is taken from a NULL argv[0].
    */
  function StartAsWritten(argv: seq<string>, progName: Option<string>, req: nat): (r: Result<string, StartFault>)
    ensures r == Err(NullDereference) <==> |argv| == 0 && progName.None?
    ensures r == Err(Usage(NotEnoughArgs)) <==> (|argv| == 0 && progName.Some?) || (|argv| >= 1 && |argv| - 1 < req)
    ensures r.Ok? ==> |argv| >= 1 && |argv| - 1 >= req
  {
    var shown: Result<string, StartFault> :=
      if progName.Some? then Ok(progName.value)
      else if |argv| == 0 then Err(NullDereference)
      else Ok(StripPath(argv[0]));
    if shown.Err? then shown
    else if |argv| == 0 || |argv| - 1 < req then Err(Usage(NotEnoughArgs))
    else shown
  }

  /**
    * The start of plap_parse_args with the arity check first: it fails iff
    * argv is empty or holds fewer tokens after argv[0] than there are required
    * positionals, and otherwise gives the stored name or argv[0] without its
    * directories.
    */
  function Start(argv: seq<string>, progName: Option<string>, req: nat): (r: Result<string, ParseError>)
    ensures r.Err? <==> |argv| == 0 || |argv| - 1 < req
    ensures r.Err? ==> r.error == NotEnoughArgs
    ensures r.Ok? && progName.Some? ==> r.value == progName.value
    ensures r.Ok? && progName.None? ==> r.value == StripPath(argv[0])
  {
    if |argv| == 0 || |argv| - 1 < req then Err(NotEnoughArgs)
    else if progName.Some? then Ok(progName.value)
    else Ok(StripPath(argv[0]))
  }

  /** With argc == 0 and no stored name, the code as written reaches strip_path_from_name(NULL). */
  lemma StartAsWrittenDereferencesNull()
    ensures StartAsWritten([], None, 0) == Err(NullDereference)
    ensures Start([], None, 0) == Err(NotEnoughArgs)
  {
  }

  /** Wherever the code as written does not dereference NULL, it agrees with Start. */
  lemma StartAgreesWhenDefined(argv: seq<string>, progName: Option<string>, req: nat)
    requires StartAsWritten(argv, progName, req) != Err(NullDereference)
    ensures StartAsWritten(argv, progName, req)
         == match Start(argv, progName, req) case Ok(s) => Ok(s) case Err(e) => Err(Usage(e))
  {
  }

  /** The Args a successful ParseSpec hands to the caller. */
  function ResultOf(r: Result<ScanState, ParseError>): Result<Args, ParseError>
  {
    match r
    case Ok(st) => Ok(Args(st.positional, st.optional))
    case Err(e) => Err(e)
  }

  /**
    * plap_parse_option: looks the option up, marks its definition matched and,
    * if it takes a value, consumes the next argv token through the cursor.
    */
  method ParseOption(value: string, awrap: ArgsWrap, optDefs: array<OptionDef>, optDefc: nat, parseInt: string -> int)
    returns (r: Result<OptionArg, ParseError>)
    requires awrap.Valid() && optDefc <= optDefs.Length
    modifies awrap`argsPointer, optDefs
    ensures awrap.Valid()
    ensures var spec := ParseOptionSpec(value, awrap.args, old(awrap.argsPointer) + 1, old(optDefs[..optDefc]), parseInt);
            match spec
            case Err(e) => r == Err(e)
            case Ok(step) =>
              && r == Ok(step.opt)
              && optDefs[..optDefc] == MarkMatched(old(optDefs[..optDefc]), step.defIdx)
              && awrap.argsPointer == old(awrap.argsPointer) + (if step.tookValue then 1 else 0)
    ensures forall i :: optDefc <= i < optDefs.Length ==> optDefs[i] == old(optDefs[i])
  {
    if |value| == 0 || (value[0] == '-' && |value| == 1) {
      return Err(EmptyOption);
    }
    var found: Option<nat>;
    var named: OptionArg;
    if value[0] == '-' {
      found := FindOptionDef(optDefs[..optDefc], None, Some(value[1..]));
      named := OptionArg(None, Some(value[1..]), NoValue);
    } else {
      found := FindOptionDef(optDefs[..optDefc], Some(value), None);
      named := OptionArg(Some(value), None, NoValue);
    }
    if found.None? {
      return Err(UnknownOption("-" + value));
    }
    var i := found.value;
    if optDefs[i].matched {
      return Err(AlreadySupplied("-" + value));
    }
    optDefs[i] := optDefs[i].(matched := true);
    if !optDefs[i].needsValue {
      return Ok(named);
    }
    var next := awrap.Next();
    if next.None? {
      return Err(MissingValue("-" + value));
    }
    return Ok(named.(value := Coerce(optDefs[i].parseAs, next.value, parseInt)));
  }

  /**
    * The option branch of the loop of plap_parse_args: `tok`, the token under
    * the cursor, goes to ParseOption without its first dash; in the pass this
    * is one option step from state `st` to `st'`.
    */
  method ConsumeOption(tok: string, awrap: ArgsWrap, optDefs: array<OptionDef>, optCount: nat, parseInt: string -> int,
                       ghost argv: seq<string>, ghost pdefs: seq<PositionalDef>, ghost k: nat, ghost st: ScanState)
    returns (o: Result<OptionArg, ParseError>, ghost k': nat, ghost st': ScanState)
    requires awrap.Valid() && awrap.args == argv && awrap.argsPointer == k && 1 <= k < |argv|
    requires tok == argv[k] && IsOptionToken(tok)
    requires optCount <= optDefs.Length && st.odefs == optDefs[..optCount]
    modifies awrap`argsPointer, optDefs
    ensures awrap.Valid()
    ensures o.Err? ==> Step(argv, pdefs, k, st, parseInt) == Err(o.error)
    ensures o.Ok? ==>
              && awrap.argsPointer + 1 == k'
              && st'.positional == st.positional && st'.optional == st.optional + [o.value]
              && st'.odefs == optDefs[..optCount]
              && Step(argv, pdefs, k, st, parseInt) == Ok(Moved(k', st'))
  {
    ghost var spec := ParseOptionSpec(tok[1..], argv, k + 1, st.odefs, parseInt);
    o := ParseOption(tok[1..], awrap, optDefs, optCount, parseInt);
    if o.Err? {
      k', st' := k, st;
    } else {
      ghost var step := spec.value;
      k', st' := k + 1 + (if step.tookValue then 1 else 0), AfterOption(st, step);
    }
  }

  /**
    * One turn of the loop of plap_parse_args: the token under the cursor is
    * handed to ParseOption (option) or paired with the next positional slot,
    * and the cursor moves on. In the pass this is one step from `st` to `st'`.
    */
  method ConsumeToken(tok: string, awrap: ArgsWrap, posDefs: array<PositionalDef>, posCount: nat,
                      optDefs: array<OptionDef>, optCount: nat, positional: nat, parseInt: string -> int,
                      ghost argv: seq<string>, ghost pdefs: seq<PositionalDef>, ghost st: ScanState)
    returns (o: Result<Option<OptionArg>, ParseError>, parg: PositionalArg, positional': nat, next: Option<string>, ghost st': ScanState)
    requires awrap.Valid() && awrap.args == argv && 1 <= awrap.argsPointer < |argv| && tok == argv[awrap.argsPointer]
    requires posCount <= posDefs.Length && pdefs == posDefs[..posCount]
    requires optCount <= optDefs.Length && st.odefs == optDefs[..optCount]
    requires positional == if |st.positional| < posCount then |st.positional| else posCount
    modifies awrap`argsPointer, optDefs
    ensures awrap.Valid() && awrap.args == argv
    ensures o.Err? ==> Step(argv, pdefs, old(awrap.argsPointer), st, parseInt) == Err(o.error)
    ensures o.Ok? ==>
              && old(awrap.argsPointer) < awrap.argsPointer
              && Step(argv, pdefs, old(awrap.argsPointer), st, parseInt) == Ok(Moved(awrap.argsPointer, st'))
              && (next.Some? <==> awrap.argsPointer < |argv|)
              && (next.Some? ==> next.value == argv[awrap.argsPointer])
              && st'.positional == st.positional + (if o.value.None? then [parg] else [])
              && st'.optional == st.optional + (if o.value.Some? then [o.value.value] else [])
              && st'.odefs == optDefs[..optCount]
              && positional' == (if |st'.positional| < posCount then |st'.positional| else posCount)
  {
    ghost var k := awrap.argsPointer;
    positional', parg := positional, PositionalArg(None, NoValue);
    if |tok| > 0 && tok[0] == '-' {
      var r;
      ghost var k';
      r, k', st' := ConsumeOption(tok, awrap, optDefs, optCount, parseInt, argv, pdefs, k, st);
      if r.Err? {
        return Err(r.error), parg, positional', None, st';
      }
      o := Ok(Some(r.value));
    } else {
      var pdef: Option<PositionalDef> := None;
      if positional < posCount {
        pdef := Some(posDefs[positional]);
        positional' := positional + 1;
      }
      assert pdef == SlotFor(pdefs, |st.positional|);
      parg := PositionalFor(pdef, tok, parseInt);
      st' := AfterPositional(st, pdefs, tok, parseInt);
      o := Ok(None);
    }
    next := awrap.Next();
  }

  /**
    * The loop of plap_parse_args: reads the tokens after argv[0] through the
    * cursor and collects the entries ConsumeToken makes of them.
    */
  method ScanTokens(awrap: ArgsWrap, posDefs: array<PositionalDef>, posCount: nat, optDefs: array<OptionDef>, optCount: nat,
                    parseInt: string -> int, ghost init: ScanState)
    returns (r: Result<Args, ParseError>)
    requires awrap.Valid() && awrap.argsPointer == 0 && |awrap.args| >= 1
    requires posCount <= posDefs.Length && optCount <= optDefs.Length
    requires init == InitialState(optDefs[..optCount])
    modifies awrap`argsPointer, optDefs
    ensures var spec := Scan(awrap.args, posDefs[..posCount], 1, init, parseInt);
            r == ResultOf(spec) && (spec.Ok? ==> optDefs[..optCount] == spec.value.odefs)
  {
    ghost var argv := awrap.args;
    ghost var pdefs := posDefs[..posCount];
    var positionalArgs: seq<PositionalArg> := [];
    var optionalArgs: seq<OptionArg> := [];
    var positional: nat := 0;
    ghost var st := init;
    var next := awrap.Next();
    while next.Some?
      invariant awrap.Valid() && awrap.args == argv
      invariant 1 <= awrap.argsPointer <= |argv|
      invariant next.Some? <==> awrap.argsPointer < |argv|
      invariant next.Some? ==> next.value == argv[awrap.argsPointer]
      invariant positional == if |positionalArgs| < posCount then |positionalArgs| else posCount
      invariant st.positional == positionalArgs && st.optional == optionalArgs && st.odefs == optDefs[..optCount]
      invariant Scan(argv, pdefs, awrap.argsPointer, st, parseInt) == Scan(argv, pdefs, 1, init, parseInt)
      decreases |argv| - awrap.argsPointer
    {
      var o, parg;
      o, parg, positional, next, st := ConsumeToken(next.value, awrap, posDefs, posCount, optDefs, optCount, positional, parseInt,
                                                    argv, pdefs, st);
      if o.Err? {
        return Err(o.error);
      }
      if o.value.Some? {
        optionalArgs := optionalArgs + [o.value.value];
      } else {
        positionalArgs := positionalArgs + [parg];
      }
    }
    return Ok(Args(positionalArgs, optionalArgs));
  }

  /**
    * plap_parse_args: the arity check, the pass over argv, and the check of
    * the number of positional entries; the `matched` flags of the options it
    * meets are set in the schema's table.
    */
  method ParseArgs(def: ArgsDef, argv: seq<string>, parseInt: string -> int) returns (r: Result<Args, ParseError>)
    requires def.Valid()
    modifies def.optDefs
    ensures def.optCount <= def.optDefs.Length
    ensures var spec := ParseSpec(argv, def.PosDefs(), old(def.OptDefs()), parseInt);
            r == ResultOf(spec) && (spec.Ok? ==> def.OptDefs() == spec.value.odefs)
  {
    var awrap := new ArgsWrap.Wrap(argv);
    var first := awrap.Next();
    var start := Start(argv, def.progName, def.posReq);
    if start.Err? {
      return Err(start.error);
    }
    var progName := start.value;   // shown only in usage text
    r := ScanTokens(awrap, def.posDefs, def.posCount, def.optDefs, def.optCount, parseInt, InitialState(def.OptDefs()));
    if r.Ok? && |r.value.positional| < def.posReq {
      return Err(NotEnoughPositional);
    }
  }
}
