/**
 * The fixed duration menu (`DURATIONS`), the text of its checkable entries,
 * and the argument list handed to the wake-lock utility for an entry.
 */
module Presets {
  import opened Wrappers
  import opened Format

  /** One entry of the duration menu: its label (`name`) and its length in seconds (None: Forever). */
  datatype Preset = Preset(name: string, seconds: Option<nat>)

  const DURATIONS: seq<Preset> := [
    Preset("Forever", None),
    Preset("1 Hour", Some(3600)),
    Preset("3 Hours", Some(10800)),
    Preset("5 Hours", Some(18000)),
    Preset("8 Hours", Some(28800)),
    Preset("24 Hours", Some(86400))
  ]

  /** The entry selected at start-up: the last one, `duration_actions[-1]`. */
  const DefaultIndex: nat := |DURATIONS| - 1

  /**
   * The table's shape: Forever comes first and is the only unbounded entry,
   * the bounded ones grow strictly, and the start-up entry is the longest.
   */
  lemma DurationsShape()
    ensures DURATIONS[0].seconds == None
    ensures forall k :: 0 < k < |DURATIONS| ==> DURATIONS[k].seconds.Some? && DURATIONS[k].seconds.value > 0
    ensures forall j, k :: 0 < j < k < |DURATIONS| ==> DURATIONS[j].seconds.value < DURATIONS[k].seconds.value
    ensures DURATIONS[DefaultIndex].seconds == Some(86400)
  {
  }

  /** The flag that keeps the display awake, and the flag before a time-out in seconds. */
  const DisplayFlag := "-dis"
  const TimeoutFlag := "-t"

  /** The arguments given to the wake-lock utility for a preset's seconds. */
  function Args(seconds: Option<nat>): (args: seq<string>)
    ensures |args| >= 1 && args[0] == DisplayFlag
    ensures (|args| == 1) == seconds.None?
  {
    match seconds
    case None => [DisplayFlag]
    case Some(s) => [DisplayFlag, TimeoutFlag, NatToString(s)]
  }

  /** How the utility reads its arguments back: "-dis", then an optional "-t <seconds>". */
  function ParseArgs(args: seq<string>): (r: Option<Option<nat>>)
    ensures r.Some? ==> |args| >= 1 && args[0] == DisplayFlag
    ensures r == Some(None) <==> args == [DisplayFlag]
  {
    if |args| == 1 && args[0] == DisplayFlag then Some(None)
    else if |args| == 3 && args[0] == DisplayFlag && args[1] == TimeoutFlag && ParseNat(args[2]).Some?
    then Some(Some(ParseNat(args[2]).value))
    else None
  }

  /** The argument list carries exactly the preset's duration. */
  lemma ParseArgsOfArgs(seconds: Option<nat>)
    ensures ParseArgs(Args(seconds)) == Some(seconds)
  {
    if seconds.Some? {
      ParseNatOfNatToString(seconds.value);
    }
  }

  /** Two presets with different durations never launch the utility with the same arguments. */
  lemma ArgsInjective(a: Option<nat>, b: Option<nat>)
    requires Args(a) == Args(b)
    ensures a == b
  {
    ParseArgsOfArgs(a);
    ParseArgsOfArgs(b);
  }

  /** The markers in front of an entry's label: U+25CF when checked, U+25CB otherwise. */
  const CheckedMarker: char := '\U{25CF}'
  const UncheckedMarker: char := '\U{25CB}'

  /** The text of a duration entry, `f"{prefix} {label}"`. */
  function EntryText(name: string, isChecked: bool): (text: string)
    ensures |text| == |name| + 2 && text[1] == ' ' && text[2..] == name
    ensures (text[0] == CheckedMarker) == isChecked && (text[0] == UncheckedMarker) == !isChecked
  {
    [if isChecked then CheckedMarker else UncheckedMarker] + " " + name
  }

  /** An entry's text gives back both its checked state and its label. */
  lemma EntryTextInjective(l1: string, c1: bool, l2: string, c2: bool)
    requires EntryText(l1, c1) == EntryText(l2, c2)
    ensures l1 == l2 && c1 == c2
  {
  }
}
