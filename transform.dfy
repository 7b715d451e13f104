/**
 * The transform engine: how the output preview is derived from the source
 * text, the regex pattern and the replacement (`App::apply_transform`).
 *
 * The regex crate is a library whose meaning is not part of this model. It is
 * passed in as an `Engine`: three functions standing for `Regex::new`,
 * `find_iter(..).map(|m| m.as_str())` and `replace_all`. Nothing is assumed
 * about them except where a lemma states the assumption as a precondition.
 */
module TransformEngine {
  import opened Wrappers
  import opened Text

  datatype Engine<!Re> = Engine(
    compile: string -> Result<Re, string>,        // Ok(compiled) or Err(the error's display text)
    findAll: (Re, string) -> seq<string>,         // the matched texts, leftmost first, non-overlapping
    replaceAll: (Re, string, string) -> string)   // the text with every match substituted

  const RegexErrorPrefix := "Regex Error: "
  const NoMatches := "(No hay coincidencias)"
  const MatchSeparator := " | "

  /**
   * The output preview for the three buffers: the source as it is when there
   * is no pattern, an error line when the pattern does not compile, the
   * matches joined by " | " (or a fixed message when there are none) when
   * there is no replacement, and the substituted source otherwise.
   */
  function Transform<Re>(engine: Engine<Re>, source: string, pattern: string, replacement: string): string
  {
    if pattern == [] then source
    else match engine.compile(pattern)
      case Err(message) => RegexErrorPrefix + message
      case Ok(re) =>
        if replacement == [] then
          var matches := engine.findAll(re, source);
          if matches == [] then NoMatches else Join(matches, MatchSeparator)
        else engine.replaceAll(re, source, replacement)
  }

  /** An empty pattern shows the source unchanged, whatever the replacement. */
  lemma EmptyPatternIsIdentity<Re>(engine: Engine<Re>, source: string, replacement: string)
    ensures Transform(engine, source, [], replacement) == source
  {
  }

  /**
   * A pattern that does not compile shows "Regex Error: " followed by the
   * engine's message and nothing else, with or without a replacement.
   */
  lemma CompileErrorShown<Re>(engine: Engine<Re>, source: string, pattern: string, replacement: string)
    requires pattern != [] && engine.compile(pattern).Err?
    ensures var out := Transform(engine, source, pattern, replacement);
      |out| >= |RegexErrorPrefix| && out[..|RegexErrorPrefix|] == RegexErrorPrefix
      && out[|RegexErrorPrefix|..] == engine.compile(pattern).error
  {
  }

  /** Without a replacement and with no match, the output is the fixed message. */
  lemma NoMatchMessage<Re>(engine: Engine<Re>, source: string, pattern: string)
    requires pattern != [] && engine.compile(pattern).Ok?
    requires engine.findAll(engine.compile(pattern).value, source) == []
    ensures Transform(engine, source, pattern, []) == NoMatches
  {
  }

  /**
   * Without a replacement and with matches, the output holds each match, in
   * the order found, with exactly " | " between neighbours: match `i` sits
   * at `Offset(matches, " | ", i)` and the output ends where the last one ends.
   */
  lemma MatchesListedInOrder<Re>(engine: Engine<Re>, source: string, pattern: string, i: nat)
    requires pattern != [] && engine.compile(pattern).Ok?
    requires i < |engine.findAll(engine.compile(pattern).value, source)|
    ensures var matches := engine.findAll(engine.compile(pattern).value, source);
      var out := Transform(engine, source, pattern, []);
      var at := Offset(matches, MatchSeparator, i);
      && |out| + |MatchSeparator| == Offset(matches, MatchSeparator, |matches|)
      && at + |matches[i]| <= |out|
      && out[at..at + |matches[i]|] == matches[i]
      && (i + 1 < |matches| ==>
            Offset(matches, MatchSeparator, i + 1) <= |out| &&
            out[at + |matches[i]|..Offset(matches, MatchSeparator, i + 1)] == MatchSeparator)
  {
    var matches := engine.findAll(engine.compile(pattern).value, source);
    JoinLength(matches, MatchSeparator);
    JoinPart(matches, MatchSeparator, i);
    if i + 1 < |matches| {
      JoinSeparator(matches, MatchSeparator, i);
    }
  }

  /** A single match is shown alone, with no separator. */
  lemma SingleMatchShownAlone<Re>(engine: Engine<Re>, source: string, pattern: string)
    requires pattern != [] && engine.compile(pattern).Ok?
    requires |engine.findAll(engine.compile(pattern).value, source)| == 1
    ensures Transform(engine, source, pattern, []) == engine.findAll(engine.compile(pattern).value, source)[0]
  {
  }

  /** Matches "cat" and "bat" with no replacement are shown as "cat | bat". */
  lemma TwoMatchesScenario<Re>(engine: Engine<Re>, source: string, pattern: string)
    requires pattern != [] && engine.compile(pattern).Ok?
    requires engine.findAll(engine.compile(pattern).value, source) == ["cat", "bat"]
    ensures Transform(engine, source, pattern, []) == "cat | bat"
  {
    assert ["cat", "bat"][1..] == ["bat"];
    assert Join(["cat", "bat"], MatchSeparator) == "cat" + MatchSeparator + "bat";
  }

  /**
   * With a replacement, the output is the engine's substitution over the
   * whole source with that replacement; the source buffer is an input only.
   */
  lemma ReplacementSubstitutes<Re>(engine: Engine<Re>, source: string, pattern: string, replacement: string)
    requires pattern != [] && replacement != [] && engine.compile(pattern).Ok?
    ensures Transform(engine, source, pattern, replacement)
      == engine.replaceAll(engine.compile(pattern).value, source, replacement)
  {
  }

  /**
   * Assumption about the regex crate, stated as such: substituting in a text
   * where the compiled pattern finds no match returns that text unchanged.
   */
  ghost predicate ReplaceKeepsUnmatched<Re(!new)>(engine: Engine<Re>) {
    forall re, s, rep :: engine.findAll(re, s) == [] ==> engine.replaceAll(re, s, rep) == s
  }

  /** Under that assumption, substitution on a source with no match shows the source as it is. */
  lemma NoMatchSubstitutionIsIdentity<Re(!new)>(engine: Engine<Re>, source: string, pattern: string, replacement: string)
    requires ReplaceKeepsUnmatched(engine)
    requires pattern != [] && replacement != [] && engine.compile(pattern).Ok?
    requires engine.findAll(engine.compile(pattern).value, source) == []
    ensures Transform(engine, source, pattern, replacement) == source
  {
  }
}
