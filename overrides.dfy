/** The reversible magics overrides consumed by the virtual document.
    The rule set itself (regular expressions and their replacements, read
    from the overrides registry) is not modelled; each direction of a map is
    given by what its rules compute. */
module Overrides {
  import opened Wrappers

  /** One direction of a rule set. */
  datatype Rules = Rules(
    /** The rendered replacement of the first rule whose pattern matches the
        whole text, or None when no rule matches. */
    overrideFor: string -> Option<string>,
    /** The line after all line rules have been applied, or None when no rule
        fired on it. */
    replaceLine: string -> Option<string>)

  /** A rule set and the rule set that inverts it (`map.reverse`). */
  datatype ReversibleOverridesMap = ReversibleOverridesMap(forward: Rules, backward: Rules)

  /** The map of a language with no registered overrides (`new ReversibleOverridesMap([])`). */
  function NoOverrides(): ReversibleOverridesMap {
    var none := Rules((s: string) => None, (s: string) => None);
    ReversibleOverridesMap(none, none)
  }

  /** The line override and cell override lists registered for one language. */
  datatype CodeOverrides = CodeOverrides(cell: ReversibleOverridesMap, line: ReversibleOverridesMap)

  datatype ReplaceResult = ReplaceResult(lines: seq<string>, skipInspect: seq<bool>)

  /** One line after the rules, unchanged when none fired. */
  function ApplyLine(rules: Rules, line: string): string {
    match rules.replaceLine(line)
    case Some(replaced) => replaced
    case None => line
  }

  /** `replaceAll(lines)` of one direction: every line is rewritten on its own,
      and `skipInspect` flags exactly the lines on which a rule fired. */
  function ReplaceAll(rules: Rules, lines: seq<string>): (r: ReplaceResult)
    ensures |r.lines| == |lines| && |r.skipInspect| == |lines|
    ensures forall i :: 0 <= i < |lines| ==> r.lines[i] == ApplyLine(rules, lines[i])
    ensures forall i :: 0 <= i < |lines| ==> (r.skipInspect[i] <==> rules.replaceLine(lines[i]).Some?)
  {
    if |lines| == 0 then ReplaceResult([], [])
    else
      var rest := ReplaceAll(rules, lines[1..]);
      ReplaceResult([ApplyLine(rules, lines[0])] + rest.lines,
                    [rules.replaceLine(lines[0]).Some?] + rest.skipInspect)
  }

  /** `reverseReplaceAll(lines)`: the backward rules applied line by line. */
  function ReverseReplaceAll(m: ReversibleOverridesMap, lines: seq<string>): seq<string> {
    ReplaceAll(m.backward, lines).lines
  }

  /** Assumption about one line (the rules are not modelled): the backward
      rules give back the line that the forward rules rewrote, or leave alone
      a line that no forward rule touched. */
  predicate LineRoundTrips(m: ReversibleOverridesMap, line: string) {
    ApplyLine(m.backward, ApplyLine(m.forward, line)) == line
  }
}
