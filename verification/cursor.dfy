/** ArgsWrap: a forward-only cursor over argv (plap_args_wrap_wrap, plap_args_wrap_next). */
module Cursor {
  import opened Wrappers

  class ArgsWrap {
    var argsCount: int
    var argsPointer: int   // index of the token returned last; -1 before the first call
    var args: seq<string>

    ghost predicate Valid()
      reads this
    {
      argsCount == |args| && -1 <= argsPointer
    }

    /** The tokens that later calls of Next will return, in order. */
    ghost function Remaining(): seq<string>
      reads this
      requires Valid()
    {
      if argsPointer + 1 <= |args| then args[argsPointer + 1..] else []
    }

    /** plap_args_wrap_wrap: a cursor placed before argv[0]. */
    constructor Wrap(argv: seq<string>)
      ensures Valid()
      ensures args == argv && argsCount == |argv| && argsPointer == -1
      ensures Remaining() == argv
    {
      args := argv;
      argsCount := |argv|;
      argsPointer := -1;
    }

    /**
      * plap_args_wrap_next: advances the cursor by one, also when it is past the
      * end, and returns the token there, or NULL once argc is reached.
      */
    method Next() returns (next: Option<string>)
      requires Valid()
      modifies this`argsPointer
      ensures Valid()
      ensures argsPointer == old(argsPointer) + 1
      ensures next == if argsPointer < argsCount then Some(args[argsPointer]) else None
      ensures old(Remaining()) == [] ==> next == None && Remaining() == []
      ensures old(Remaining()) != [] ==>
                next == Some(old(Remaining())[0]) && Remaining() == old(Remaining())[1..]
    {
      argsPointer := argsPointer + 1;
      if argsPointer >= argsCount {
        return None;
      }
      return Some(args[argsPointer]);
    }
  }
}
