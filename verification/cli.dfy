/**
  The checks `parse_cli` in src/sigil.cpp (lines 1190-1279) makes around its
  grammar: an empty argument list keeps the defaults, a rejected parse
  fails, and each of verbose, debug, width and height may be applied at
  most once.

  The tokenizer and CYK parser are outside this model: their verdict is an
  input, given as the actions the first parse tree runs, in order.
*/
module Cli {
  import opened Wrappers

  datatype Action = Help | Verbose | Debug | Width(value: nat) | Height(value: nat)

  datatype Config = Config(width: nat, height: nat, debug: bool, help: bool, logLevel: nat)

  /** The context's member initialisers (src/sigil.hpp:48-50). */
  const Defaults := Config(1280, 720, false, false, 0)

  /** `logger::inf | logger::wrn | logger::err` (src/sigil.hpp:107). */
  const LogAll: nat := 7

  datatype Kind = KHelp | KVerbose | KDebug | KWidth | KHeight

  function KindOf(a: Action): Kind {
    match a
    case Help => KHelp
    case Verbose => KVerbose
    case Debug => KDebug
    case Width(_) => KWidth
    case Height(_) => KHeight
  }

  /** How many actions of kind `k` ran: the `*_count` counters of sigil.cpp:1210-1231. */
  function Count(acts: seq<Action>, k: Kind): (r: nat)
    ensures r <= |acts|
    ensures r == 0 <==> forall i :: 0 <= i < |acts| ==> KindOf(acts[i]) != k
    ensures r <= 1 <==> forall i, j :: 0 <= i < j < |acts| && KindOf(acts[i]) == k ==> KindOf(acts[j]) != k
  {
    if |acts| == 0 then 0
    else
      var rest := Count(acts[1..], k);
      assert forall i :: 1 <= i < |acts| ==> acts[i] == acts[1..][i - 1];
      (if KindOf(acts[0]) == k then 1 else 0) + rest
  }

  /** The effect of one action on the context (sigil.cpp:1212-1231): each action sets its own field and no other. */
  function Perform(c: Config, a: Action): (r: Config)
    ensures r.width == if a.Width? then a.value else c.width
    ensures r.height == if a.Height? then a.value else c.height
    ensures r.debug <==> c.debug || a.Debug?
    ensures r.help <==> c.help || a.Help?
    ensures r.logLevel == if a.Verbose? then LogAll else c.logLevel
  {
    match a
    case Help => c.(help := true)
    case Verbose => c.(logLevel := LogAll)
    case Debug => c.(debug := true)
    case Width(w) => c.(width := w)
    case Height(h) => c.(height := h)
  }

  function PerformAll(c: Config, acts: seq<Action>): Config
    decreases |acts|
  {
    if |acts| == 0 then c else PerformAll(Perform(c, acts[0]), acts[1..])
  }

  datatype CliFailure = InvalidInput | Repeated

  /** The counted options; `--help` is not among them. */
  predicate NoRepeats(acts: seq<Action>) {
    Count(acts, KVerbose) <= 1 && Count(acts, KDebug) <= 1
    && Count(acts, KWidth) <= 1 && Count(acts, KHeight) <= 1
  }

  /**
    `parse_cli` (sigil.cpp:1190-1279): true with the defaults for no
    arguments; otherwise false when the grammar rejects the input or when a
    counted option was applied more than once.
  */
  function ParseCli(args: seq<string>, parsed: Option<seq<Action>>): (r: Result<Config, CliFailure>)
    ensures |args| == 0 ==> r == Ok(Defaults)
    ensures |args| > 0 && parsed.None? ==> r == Err(InvalidInput)
    ensures |args| > 0 && parsed.Some? ==> (r.Ok? <==> NoRepeats(parsed.value))
    ensures r.Ok? && |args| > 0 ==> r.value == PerformAll(Defaults, parsed.value)
  {
    if |args| == 0 then Ok(Defaults)
    else match parsed
      case None => Err(InvalidInput)
      case Some(acts) =>
        var c := PerformAll(Defaults, acts);
        if !NoRepeats(acts) then Err(Repeated) else Ok(c)
  }

  // ---------------------------------------------------------------------------
  // Properties

  /** With no width action the width keeps its prior value; with exactly one, it takes that action's value. */
  lemma {:induction false} WidthFromSingleAction(c: Config, acts: seq<Action>)
    requires Count(acts, KWidth) <= 1
    ensures Count(acts, KWidth) == 0 ==> PerformAll(c, acts).width == c.width
    ensures forall i :: 0 <= i < |acts| && acts[i].Width? ==> PerformAll(c, acts).width == acts[i].value
    decreases |acts|
  {
    if |acts| > 0 {
      assert forall i :: 1 <= i < |acts| ==> acts[i] == acts[1..][i - 1];
      WidthFromSingleAction(Perform(c, acts[0]), acts[1..]);
    }
  }

  /** Debug mode is on exactly when a debug action ran. */
  lemma {:induction false} DebugIffAction(c: Config, acts: seq<Action>)
    ensures PerformAll(c, acts).debug <==> c.debug || Count(acts, KDebug) > 0
    decreases |acts|
  {
    if |acts| > 0 {
      DebugIffAction(Perform(c, acts[0]), acts[1..]);
    }
  }

  /** `-w 800 -w 900` is rejected even though each part parses. */
  lemma RepeatedWidthRejected(args: seq<string>)
    requires |args| > 0
    ensures ParseCli(args, Some([Width(800), Width(900)])) == Err(Repeated)
  {
    assert Count([Width(800), Width(900)], KWidth) == 2 by {
      assert [Width(800), Width(900)][1..] == [Width(900)];
    }
  }

  /** An accepted command line sets a single width option's value and keeps the default height. */
  lemma AcceptedWidth(args: seq<string>, w: nat)
    requires |args| > 0
    ensures ParseCli(args, Some([Width(w)])) == Ok(Defaults.(width := w))
  {
    var acts := [Width(w)];
    assert acts[1..] == [];
    assert Count(acts, KWidth) == 1 && Count(acts, KVerbose) == 0;
    assert Count(acts, KDebug) == 0 && Count(acts, KHeight) == 0;
    assert PerformAll(Defaults, acts) == PerformAll(Defaults.(width := w), []);
  }
}
