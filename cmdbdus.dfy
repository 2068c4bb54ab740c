/**
 * The `bdus` command (cmdbdus/bdus.c): a decision tree over its arguments that prints help or
 * usage text, reports versions, or destroys a device.
 *
 * `argv` includes the program name, so `argc` is `|argv|`. What the library calls report
 * (whether kbdus's version could be read, whether the destruction succeeded) is a parameter.
 */
module CmdBdus {
  import opened Wrappers
  import LibBdus

  /** What `main` decides to do with its arguments. */
  datatype Action =
    | PrintHelp
    | PrintVersion
    | PrintDestroyHelp
    | Destroy(target: string, flush: bool)
    | PrintDestroyUsage
    | PrintUsage

  /** The branch `main` takes. */
  function Dispatch(argv: seq<string>): (a: Action)
    ensures a == PrintHelp <==> |argv| == 2 && argv[1] == "--help"
    ensures a == PrintVersion <==> |argv| == 2 && argv[1] == "--version"
    ensures a == PrintDestroyHelp <==> |argv| == 3 && argv[1] == "destroy" && argv[2] == "--help"
    ensures a.Destroy? && a.flush <==> |argv| == 3 && argv[1] == "destroy" && argv[2] != "--help"
    ensures a.Destroy? && a.flush ==> a.target == argv[2]
    ensures a.Destroy? && !a.flush <==>
      |argv| == 4 && argv[1] == "destroy" && (argv[2] == "--no-flush" || argv[3] == "--no-flush")
    ensures a.Destroy? && !a.flush ==>
      (argv[2] == "--no-flush" && a.target == argv[3]) || (argv[3] == "--no-flush" && a.target == argv[2])
    ensures a == PrintDestroyUsage <==>
      |argv| >= 2 && argv[1] == "destroy" && |argv| != 3
      && !(|argv| == 4 && (argv[2] == "--no-flush" || argv[3] == "--no-flush"))
    ensures a == PrintUsage <==>
      !(|argv| == 2 && (argv[1] == "--help" || argv[1] == "--version"))
      && !(|argv| >= 2 && argv[1] == "destroy")
  {
    var argc := |argv|;
    if argc == 2 && argv[1] == "--help" then PrintHelp
    else if argc == 2 && argv[1] == "--version" then PrintVersion
    else if argc >= 2 && argv[1] == "destroy" then
      if argc == 3 && argv[2] == "--help" then PrintDestroyHelp
      else if argc == 3 then Destroy(argv[2], true)
      else if argc == 4 && argv[2] == "--no-flush" then Destroy(argv[3], false)
      else if argc == 4 && argv[3] == "--no-flush" then Destroy(argv[2], false)
      else PrintDestroyUsage
    else PrintUsage
  }

  /** `--no-flush` may come before or after the device. */
  lemma NoFlushEitherSide(program: string, device: string)
    ensures Dispatch([program, "destroy", "--no-flush", device]) == Destroy(device, false)
    ensures Dispatch([program, "destroy", device, "--no-flush"]) == Destroy(device, false)
  {
  }

  /** `action_version`: 1 when kbdus's version cannot be read, else 0. */
  function ActionVersion(kbdusVersionRead: bool): (code: int)
    ensures code == 0 <==> kbdusVersionRead
    ensures code == 0 || code == 1
  {
    if !kbdusVersionRead then 1 else 0
  }

  /**
   * `action_destroy`: 1 when the argument is neither an index nor a device path, or when
   * `bdus_destroy_dev` fails (`destroyed` is its result), else 0.
   */
  function ActionDestroy(target: string, destroyed: bool): (code: int)
    ensures code == 0 <==> LibBdus.IndexOrPathToIndex(target).Ok? && destroyed
    ensures code == 0 || code == 1
  {
    if LibBdus.IndexOrPathToIndex(target).Err? then 1
    else if !destroyed then 1
    else 0
  }

  /** `main`'s exit status. */
  function ExitCode(argv: seq<string>, kbdusVersionRead: bool, destroyed: bool): (code: int)
    ensures Dispatch(argv) in {PrintHelp, PrintDestroyHelp} ==> code == 0
    ensures Dispatch(argv) in {PrintUsage, PrintDestroyUsage} ==> code == 2
    ensures code == 2 <==> Dispatch(argv) in {PrintUsage, PrintDestroyUsage}
    ensures Dispatch(argv).Destroy? ==>
      (code == 0 <==> LibBdus.IndexOrPathToIndex(Dispatch(argv).target).Ok? && destroyed)
    ensures Dispatch(argv) == PrintVersion ==> (code == 0 <==> kbdusVersionRead)
    ensures code in {0, 1, 2}
  {
    match Dispatch(argv)
    case PrintHelp => 0
    case PrintVersion => ActionVersion(kbdusVersionRead)
    case PrintDestroyHelp => 0
    case Destroy(target, flush) => ActionDestroy(target, destroyed)
    case PrintDestroyUsage => 2
    case PrintUsage => 2
  }
}
