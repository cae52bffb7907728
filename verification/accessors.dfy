/** Queries on a parse result: find_option, plap_get_option and plap_get_positional. */
module Accessors {
  import opened Wrappers
  import opened PlapTypes
  import opened Schema
  import opened Parser
  import opened ParserFacts

  /** The test of find_option: the recorded long name equals `l` or the recorded short name equals `sh`. */
  predicate EntryMatches(o: OptionArg, sh: Option<string>, l: Option<string>)
  {
    StrEq(o.longName, l) || StrEq(o.shortName, sh)
  }

  /** find_option: the index of the first entry that matches, or NULL. */
  function FindOption(opts: seq<OptionArg>, sh: Option<string>, l: Option<string>): (r: Option<nat>)
    ensures r.Some? ==> r.value < |opts| && EntryMatches(opts[r.value], sh, l)
    ensures r.Some? ==> forall j :: 0 <= j < r.value ==> !EntryMatches(opts[j], sh, l)
    ensures r.None? <==> forall j :: 0 <= j < |opts| ==> !EntryMatches(opts[j], sh, l)
  {
    if opts == [] then None
    else if EntryMatches(opts[0], sh, l) then Some(0)
    else match FindOption(opts[1..], sh, l)
      case None => None
      case Some(i) => Some(i + 1)
  }

  /** plap_get_option: the first option entry recorded under `sh` or `l`, or NULL. */
  function GetOption(args: Args, sh: Option<string>, l: Option<string>): (r: Option<OptionArg>)
    ensures r.None? <==> forall j :: 0 <= j < |args.optional| ==> !EntryMatches(args.optional[j], sh, l)
    ensures r.Some? ==> exists i :: 0 <= i < |args.optional| && args.optional[i] == r.value
                                   && EntryMatches(args.optional[i], sh, l)
                                   && forall j :: 0 <= j < i ==> !EntryMatches(args.optional[j], sh, l)
  {
    match FindOption(args.optional, sh, l)
    case Some(i) => Some(args.optional[i])
    case None => None
  }

  /** plap_get_positional: the entry at `pos` if there are more than `pos` entries, else NULL. */
  function GetPositional(args: Args, pos: nat): (r: Option<PositionalArg>)
    ensures r.Some? <==> pos < |args.positional|
    ensures r.Some? ==> r.value == args.positional[pos]
  {
    if pos < |args.positional| then Some(args.positional[pos]) else None
  }

  /**
    * In a schema without conflicts, an entry that carries one name matches
    * the names of definition `d` iff looking that name up finds `d`.
    */
  lemma EntryMatchesIffLookup(odefs: seq<OptionDef>, o: OptionArg, d: nat)
    requires NoConflicts(odefs) && d < |odefs|
    requires o.shortName.None? || o.longName.None?
    ensures EntryMatches(o, odefs[d].shortName, Some(odefs[d].longName)) <==> LookupEntry(odefs, o) == Some(d)
  {
    var sh, l := if o.longName.Some? then None else o.shortName, o.longName;
    var f := FindOptionDef(odefs, sh, l);
    assert LookupEntry(odefs, o) == f;
    assert Matches(odefs[d], sh, l) <==> EntryMatches(o, odefs[d].shortName, Some(odefs[d].longName));
    if Matches(odefs[d], sh, l) {
      assert f.Some?;
      if f.value < d {
        LookupIsUnambiguous(odefs, f.value, d, sh, l);
      }
    }
  }

  /**
    * After a successful parse against a schema without conflicts, querying
    * with the short and long name of definition `d` finds an entry iff some
    * entry names `d`, which is iff some argv token consumed as an option name
    * names `d`; and the entry it finds is the one for `d`.
    */
  lemma GetOptionFindsParsedDefinition(argv: seq<string>, pdefs: seq<PositionalDef>, odefs: seq<OptionDef>,
                                       parseInt: string -> int, st: ScanState, d: nat)
    requires ParseSpec(argv, pdefs, odefs, parseInt) == Ok(st)
    requires NoConflicts(odefs) && d < |odefs|
    ensures var r := GetOption(Args(st.positional, st.optional), odefs[d].shortName, Some(odefs[d].longName));
            (r.Some? <==> exists i :: 0 <= i < |st.optional| && LookupEntry(odefs, st.optional[i]) == Some(d))
            && (r.Some? <==> exists j :: GivenAt(argv, odefs, st.roles, j, d))
            && (r.Some? ==> LookupEntry(odefs, r.value) == Some(d))
  {
    ParseMatchesEachOptionOnce(argv, pdefs, odefs, parseInt, st);
    ParseEntriesFollowOptionTokens(argv, pdefs, odefs, parseInt, st, d);
    forall i | 0 <= i < |st.optional|
      ensures EntryMatches(st.optional[i], odefs[d].shortName, Some(odefs[d].longName))
          <==> LookupEntry(odefs, st.optional[i]) == Some(d)
    {
      EntryMatchesIffLookup(odefs, st.optional[i], d);
    }
  }
}
