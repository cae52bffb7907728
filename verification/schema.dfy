/**
  * The schema builder: plap_args_def, plap_positional, plap_option and the
  * definition lookup find_option_def.
  */
module Schema {
  import opened Wrappers
  import opened PlapTypes

  /** Both definition tables start with room for 16 entries. */
  const InitialSize: nat := 16

  /** The number of required slots among `defs`. */
  function RequiredCount(defs: seq<PositionalDef>): (n: nat)
  {
    if defs == [] then 0
    else RequiredCount(defs[..|defs| - 1]) + (if defs[|defs| - 1].required then 1 else 0)
  }

  /** The count never exceeds the number of slots, and reaches it exactly when every slot is required. */
  lemma {:induction false} RequiredCountBounds(defs: seq<PositionalDef>)
    ensures RequiredCount(defs) <= |defs|
    ensures RequiredCount(defs) == |defs| <==> forall i :: 0 <= i < |defs| ==> defs[i].required
  {
    if defs != [] {
      var init := defs[..|defs| - 1];
      RequiredCountBounds(init);
      assert forall i :: 0 <= i < |init| ==> init[i] == defs[i];
    }
  }

  /** Appending a slot adds one to the count exactly when the slot is required. */
  lemma RequiredCountSnoc(defs: seq<PositionalDef>, d: PositionalDef)
    ensures RequiredCount(defs + [d]) == RequiredCount(defs) + (if d.required then 1 else 0)
  {
    assert (defs + [d])[..|defs|] == defs;
  }

  /** The test of find_option_def: the long name equals `l` or the short name equals `sh`, NULL matching nothing. */
  predicate Matches(od: OptionDef, sh: Option<string>, l: Option<string>)
  {
    StrEq(Some(od.longName), l) || StrEq(od.shortName, sh)
  }

  /** find_option_def: the index of the first definition that matches, or NULL. */
  function FindOptionDef(odefs: seq<OptionDef>, sh: Option<string>, l: Option<string>): (r: Option<nat>)
    ensures r.Some? ==> r.value < |odefs| && Matches(odefs[r.value], sh, l)
    ensures r.Some? ==> forall j :: 0 <= j < r.value ==> !Matches(odefs[j], sh, l)
    ensures r.None? <==> forall j :: 0 <= j < |odefs| ==> !Matches(odefs[j], sh, l)
  {
    if odefs == [] then None
    else if Matches(odefs[0], sh, l) then Some(0)
    else match FindOptionDef(odefs[1..], sh, l)
      case None => None
      case Some(i) => Some(i + 1)
  }

  /** `b` may not be added after `a`: the same long name, or the same non-NULL short name. */
  predicate Conflicts(a: OptionDef, b: OptionDef)
  {
    Matches(a, b.shortName, Some(b.longName))
  }

  /** No two definitions share a long name or a non-NULL short name. */
  ghost predicate NoConflicts(odefs: seq<OptionDef>)
  {
    forall i, j :: 0 <= i < j < |odefs| ==> !Conflicts(odefs[i], odefs[j])
  }

  /** In a schema without conflicts, a name looked up the way the parser does finds at most one definition. */
  lemma LookupIsUnambiguous(odefs: seq<OptionDef>, i: nat, j: nat, sh: Option<string>, l: Option<string>)
    requires NoConflicts(odefs)
    requires i < j < |odefs|
    requires sh.None? || l.None?
    ensures !(Matches(odefs[i], sh, l) && Matches(odefs[j], sh, l))
  {
  }

  /** The character of one decimal digit. */
  function DigitChar(d: nat): char
    requires d < 10
  {
    ('0' as int + d) as char
  }

  predicate IsDigit(c: char)
  {
    '0' <= c <= '9'
  }

  /** The number a string of decimal digits denotes. */
  function DigitsValue(s: string): int
    requires forall i :: 0 <= i < |s| ==> IsDigit(s[i])
  {
    if s == [] then 0
    else
      var last := s[|s| - 1];
      assert IsDigit(last);
      DigitsValue(s[..|s| - 1]) * 10 + (last as int - '0' as int)
  }

  /** `%ld` of a non-negative count. */
  function DecimalString(n: nat): string
  {
    if n < 10 then [DigitChar(n)] else DecimalString(n / 10) + [DigitChar(n % 10)]
  }

  /** The text `%ld` prints is decimal digits without leading zeros that read back as `n`. */
  lemma {:induction false} DecimalStringReadsBack(n: nat)
    ensures |DecimalString(n)| >= 1
    ensures forall i :: 0 <= i < |DecimalString(n)| ==> IsDigit(DecimalString(n)[i])
    ensures DigitsValue(DecimalString(n)) == n
    ensures DecimalString(n)[0] == '0' ==> n == 0
  {
    if n >= 10 {
      var prefix := DecimalString(n / 10);
      DecimalStringReadsBack(n / 10);
      var s := DecimalString(n);
      assert s[..|s| - 1] == prefix;
      assert s[0] == prefix[0];
    }
  }

  /** The label "arg<N>" given to a positional declared without a name. */
  function DefaultName(n: nat): string
  {
    "arg" + DecimalString(n)
  }

  /** The default label is "arg" followed by decimal digits that read back as `n`. */
  lemma DefaultNameReadsBack(n: nat)
    ensures |DefaultName(n)| > 3 && DefaultName(n)[..3] == "arg"
    ensures forall i :: 3 <= i < |DefaultName(n)| ==> IsDigit(DefaultName(n)[i])
    ensures DigitsValue(DefaultName(n)[3..]) == n
  {
    DecimalStringReadsBack(n);
    assert DefaultName(n)[3..] == DecimalString(n);
  }

  /** realloc of a definition table: a larger array that starts with the old contents. */
  method Grow<T>(a: array<T>, size: nat, blank: T) returns (b: array<T>)
    requires a.Length <= size
    ensures fresh(b) && b.Length == size
    ensures b[..a.Length] == a[..]
  {
    b := new T[size](i reads a => if 0 <= i < a.Length then a[i] else blank);
    assert forall j :: 0 <= j < a.Length ==> b[j] == a[j];
  }

  /**
    * The append shared by plap_positional and plap_option: the count grows by
    * one, the table doubles (realloc) when the new count reaches its size, and
    * the new definition goes in the last used slot.
    */
  method Append<T>(a: array<T>, count: nat, x: T, blank: T) returns (b: array<T>)
    requires count < a.Length
    modifies a
    ensures b == a || fresh(b)
    ensures b.Length == if count + 1 >= a.Length then 2 * a.Length else a.Length
    ensures b[..count + 1] == old(a[..count]) + [x]
  {
    b := a;
    if count + 1 >= a.Length {
      b := Grow(a, 2 * a.Length, blank);
    }
    b[count] := x;
    assert b[..count] == old(a[..count]);
  }

  /** ArgsDef: the two growable definition tables and the count of required positionals. */
  class ArgsDef {
    var posCount: nat
    var posSz: nat
    var posDefs: array<PositionalDef>
    var posReq: nat
    var optCount: nat
    var optSz: nat
    var optDefs: array<OptionDef>
    var progName: Option<string>   // overrides the name shown in usage text
    var progDesc: Option<string>

    /** The positional table has a free slot and `posReq` counts its required slots. */
    ghost predicate PosValid()
      reads this`posCount, this`posSz, this`posDefs, this`posReq, posDefs
    {
      posCount < posSz == posDefs.Length
      && posReq == RequiredCount(posDefs[..posCount])
    }

    /** The option table has a free slot and no two of its options collide. */
    ghost predicate OptValid()
      reads this`optCount, this`optSz, this`optDefs, optDefs
    {
      optCount < optSz == optDefs.Length
      && NoConflicts(optDefs[..optCount])
    }

    ghost predicate Valid()
      reads this, posDefs, optDefs
    {
      PosValid() && OptValid()
    }

    /** The positional definitions in declaration order. */
    function PosDefs(): seq<PositionalDef>
      reads this`posCount, this`posDefs, posDefs
      requires posCount <= posDefs.Length
    {
      posDefs[..posCount]
    }

    /** The option definitions in declaration order. */
    function OptDefs(): seq<OptionDef>
      reads this`optCount, this`optDefs, optDefs
      requires optCount <= optDefs.Length
    {
      optDefs[..optCount]
    }

    /** plap_args_def: an empty schema with room for 16 definitions of each kind. */
    constructor ()
      ensures Valid() && fresh(posDefs) && fresh(optDefs)
      ensures PosDefs() == [] && OptDefs() == [] && posReq == 0
      ensures posSz == InitialSize && optSz == InitialSize
      ensures progName.None? && progDesc.None?
    {
      progName, progDesc := None, None;
      posCount, posSz, posReq := 0, InitialSize, 0;
      optCount, optSz := 0, InitialSize;
      posDefs := new PositionalDef[InitialSize](_ => BlankPositional);
      optDefs := new OptionDef[InitialSize](_ => BlankOption);
    }

    /** plap_program_desc: a given name or description replaces the stored one; an absent one leaves it. */
    method ProgramDesc(name: Option<string>, desc: Option<string>)
      requires Valid()
      modifies this`progName, this`progDesc
      ensures Valid()
      ensures progName == if name.Some? then name else old(progName)
      ensures progDesc == if desc.Some? then desc else old(progDesc)
    {
      if name.Some? {
        progName := name;
      }
      if desc.Some? {
        progDesc := desc;
      }
    }

    /**
      * plap_positional: appends a slot (named "arg<N>" when no name is given,
      * N the new count), counts it if it is required, and doubles the table
      * when the count reaches its size.
      */
    method AddPositional(name: Option<string>, desc: Option<string>, parseAs: int, required: bool)
      requires Valid()
      modifies this`posCount, this`posSz, this`posDefs, this`posReq, posDefs
      ensures Valid()
      ensures posCount == old(posCount) + 1
      ensures PosDefs() == old(PosDefs()) +
        [PositionalDef(parseAs, required, if name.Some? then name.value else DefaultName(posCount), desc)]
      ensures posReq == old(posReq) + (if required then 1 else 0)
      ensures posSz == if posCount >= old(posSz) then 2 * old(posSz) else old(posSz)
      ensures posDefs == old(posDefs) || fresh(posDefs)
      ensures optCount == old(optCount) && optSz == old(optSz) && optDefs == old(optDefs)
      ensures OptDefs() == old(OptDefs())
    {
      var pname := if name.Some? then name.value else DefaultName(posCount + 1);
      PushPositional(PositionalDef(parseAs, required, pname, desc));
    }

    /**
      * The bookkeeping of plap_positional once the slot is built: the required
      * count, the count, the doubling of the table and the store into it.
      */
    method PushPositional(pdef: PositionalDef)
      requires Valid()
      modifies this`posCount, this`posSz, this`posDefs, this`posReq, posDefs
      ensures Valid()
      ensures posCount == old(posCount) + 1
      ensures PosDefs() == old(PosDefs()) + [pdef]
      ensures posReq == old(posReq) + (if pdef.required then 1 else 0)
      ensures posSz == if posCount >= old(posSz) then 2 * old(posSz) else old(posSz)
      ensures posDefs == old(posDefs) || fresh(posDefs)
      ensures optCount == old(optCount) && optSz == old(optSz) && optDefs == old(optDefs)
      ensures OptDefs() == old(OptDefs())
    {
      ghost var before := PosDefs();
      RequiredCountSnoc(before, pdef);
      var table := Append(posDefs, posCount, pdef, BlankPositional);
      posDefs, posCount, posSz := table, posCount + 1, table.Length;
      posReq := posReq + (if pdef.required then 1 else 0);
      assert OptValid() && OptDefs() == old(OptDefs());
      assert PosDefs() == before + [pdef];
    }

    /**
      * plap_option: fails when the long name is NULL or when an existing option
      * has the same long name or the same non-NULL short name; otherwise
      * appends an unmatched option and doubles the table when it is full.
      */
    method AddOption(sh: Option<string>, l: Option<string>, desc: Option<string>, parseAs: int, needsValue: bool)
      returns (err: Option<DefinitionError>)
      requires Valid()
      modifies this`optCount, this`optSz, this`optDefs, optDefs
      ensures Valid()
      ensures l.None? ==> err == Some(NoLongName)
      ensures l.Some? && FindOptionDef(old(OptDefs()), sh, l).Some? ==>
                err == Some(ConflictingOption(old(OptDefs())[FindOptionDef(old(OptDefs()), sh, l).value].longName))
      ensures err.None? <==> l.Some? && FindOptionDef(old(OptDefs()), sh, l).None?
      ensures err.Some? ==> optCount == old(optCount) && optSz == old(optSz) && OptDefs() == old(OptDefs())
      ensures err.None? ==> optCount == old(optCount) + 1
      ensures err.None? ==> OptDefs() == old(OptDefs()) + [OptionDef(false, parseAs, needsValue, sh, l.value, desc)]
      ensures err.None? ==> optSz == if optCount >= old(optSz) then 2 * old(optSz) else old(optSz)
      ensures optDefs == old(optDefs) || fresh(optDefs)
      ensures posCount == old(posCount) && posSz == old(posSz) && posReq == old(posReq) && posDefs == old(posDefs)
      ensures PosDefs() == old(PosDefs())
    {
      if l.None? {
        return Some(NoLongName);
      }
      var same := FindOptionDef(optDefs[..optCount], sh, l);
      if same.Some? {
        return Some(ConflictingOption(optDefs[same.value].longName));
      }
      var odef := OptionDef(false, parseAs, needsValue, sh, l.value, desc);
      PushOption(odef);
      return None;
    }

    /**
      * The bookkeeping of plap_option once the option is known not to collide:
      * the count, the doubling of the table and the store into it.
      */
    method PushOption(odef: OptionDef)
      requires Valid()
      requires forall i :: 0 <= i < optCount ==> !Conflicts(optDefs[i], odef)
      modifies this`optCount, this`optSz, this`optDefs, optDefs
      ensures Valid()
      ensures optCount == old(optCount) + 1
      ensures OptDefs() == old(OptDefs()) + [odef]
      ensures optSz == if optCount >= old(optSz) then 2 * old(optSz) else old(optSz)
      ensures optDefs == old(optDefs) || fresh(optDefs)
      ensures posCount == old(posCount) && posSz == old(posSz) && posReq == old(posReq) && posDefs == old(posDefs)
      ensures PosDefs() == old(PosDefs())
    {
      ghost var before := OptDefs();
      var table := Append(optDefs, optCount, odef, BlankOption);
      optDefs, optCount, optSz := table, optCount + 1, table.Length;
      assert PosValid() && PosDefs() == old(PosDefs());
      assert OptDefs() == before + [odef];
      forall i, j | 0 <= i < j < |before + [odef]|
        ensures !Conflicts((before + [odef])[i], (before + [odef])[j])
      {
        if j == |before| {
          assert before[i] == old(optDefs[i]);
        }
      }
    }
  }
}
