/** The npm arguments the command passes on, and which of them are flags. */
module NpmArguments {
  import opened Text

  /** The arguments that are not flags (do not start with '-'), in their order. */
  function NonFlags(args: seq<string>): seq<string>
  {
    if |args| == 0 then []
    else NonFlags(args[..|args| - 1]) + if HasPrefix(args[|args| - 1], "-") then [] else [args[|args| - 1]]
  }

  /** The arguments kept are exactly the ones that do not start with '-', and no more of them than there were. */
  lemma {:induction false} NonFlagsMembers(args: seq<string>)
    ensures forall a :: a in NonFlags(args) <==> a in args && !HasPrefix(a, "-")
    ensures |NonFlags(args)| <= |args|
  {
    if |args| > 0 {
      var init := args[..|args| - 1];
      NonFlagsMembers(init);
      assert args == init + [args[|args| - 1]];
    }
  }
}
