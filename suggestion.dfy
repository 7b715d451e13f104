/**
 * What `App::suggest_ai` does with the answer of the external suggestion
 * command: the cleaning of the reply into a pattern, and the status line.
 * Running the command is not modelled; its result arrives as a
 * `ProviderOutcome`.
 */
module Suggestion {
  import opened Wrappers
  import opened Text

  /** The result of `Command::output()`, with stdout and stderr already decoded as text. */
  datatype ProviderOutcome =
    | Exited(success: bool, stdout: string, stderr: string)  // the command ran; `success` is a zero exit status
    | SpawnFailed(message: string)                           // the command could not be started

  const Consulting := "Consultando a Gemini IA..."
  const Applied := "Sugerencia aplicada!"
  const EmptyReply := "Gemini devolvió vacío."
  const SpawnErrorPrefix := "Error de ejecución: "
  const ExitErrorPrefix := "Gemini Error: "
  /** How many characters of the command's stderr the status line shows. */
  const StderrShown := 30

  /** A character absent from a text is still absent once its ends are trimmed. */
  lemma TrimKeepsOut(s: string, c: char)
    requires c !in s
    ensures c !in Trim(s)
  {
    var r := Trim(s);
    TrimSpec(s);
    var i :| StrippedAt(s, i, r);
    forall k | 0 <= k < |r| ensures r[k] != c {
      assert r[k] == s[i + k];
    }
  }

  /**
   * The cleaning of a reply: delete "```regex", then "```", then every
   * backtick, then trim.
   */
  function Clean(reply: string): string
  {
    Trim(RemoveAll(RemoveAll(RemoveAll(reply, "```regex"), "```"), "`"))
  }

  /** What is left after cleaning has no backtick and no whitespace at either end. */
  lemma CleanIsBare(reply: string)
    ensures '`' !in Clean(reply)
    ensures IsTrimmed(Clean(reply))
  {
    var noTicks := RemoveAll(RemoveAll(RemoveAll(reply, "```regex"), "```"), "`");
    RemoveAllChar(RemoveAll(RemoveAll(reply, "```regex"), "```"), '`');
    TrimKeepsOut(noTicks, '`');
    TrimSpec(noTicks);
  }

  /** The "```" pass is subsumed by the backtick pass after it. */
  lemma CleanSkipsFencePass(reply: string)
    ensures Clean(reply) == Trim(RemoveAll(RemoveAll(reply, "```regex"), "`"))
  {
    RemoveTripleThenSingle(RemoveAll(reply, "```regex"), '`');
  }

  /** A reply that is already a bare, trimmed pattern is taken as it is. */
  lemma CleanKeepsBarePattern(reply: string)
    requires '`' !in reply && IsTrimmed(reply)
    ensures Clean(reply) == reply
  {
    RemoveAllAbsent(reply, "```regex");
    RemoveAllAbsent(reply, "```");
    RemoveAllAbsent(reply, "`");
    assert reply[..0] == [] && reply[0..0 + |reply|] == reply && reply[|reply|..] == [];
    assert StrippedAt(reply, 0, reply);
    TrimUnique(reply, reply);
  }

  /** Cleaning twice is cleaning once. */
  lemma CleanIdempotent(reply: string)
    ensures Clean(Clean(reply)) == Clean(reply)
  {
    CleanIsBare(reply);
    CleanKeepsBarePattern(Clean(reply));
  }

  /**
   * The pattern the reply installs, if any: only a successful run whose
   * trimmed stdout is non-empty gives one. The emptiness test comes before
   * the cleaning.
   */
  function SuggestedPattern(outcome: ProviderOutcome): Option<string>
  {
    match outcome
    case Exited(success, out, _) =>
      if success && Trim(out) != [] then Some(Clean(Trim(out))) else None
    case SpawnFailed(_) => None
  }

  /** The status line `suggest_ai` leaves behind. */
  function SuggestStatus(outcome: ProviderOutcome): string
  {
    match outcome
    case SpawnFailed(message) => SpawnErrorPrefix + message
    case Exited(success, out, err) =>
      if !success then ExitErrorPrefix + (if |err| <= StderrShown then err else err[..StderrShown])
      else if Trim(out) != [] then Applied
      else EmptyReply
  }

  /**
   * The status line reports an applied suggestion exactly when a pattern is
   * installed, and an installed pattern is always clean.
   */
  lemma StatusMatchesOutcome(outcome: ProviderOutcome)
    ensures SuggestedPattern(outcome).Some? <==> SuggestStatus(outcome) == Applied
    ensures SuggestedPattern(outcome).Some? ==>
      '`' !in SuggestedPattern(outcome).value && IsTrimmed(SuggestedPattern(outcome).value)
  {
    var status := SuggestStatus(outcome);
    if outcome.SpawnFailed? {
      assert status[0] == SpawnErrorPrefix[0] != Applied[0];
    } else if !outcome.success {
      assert status[0] == ExitErrorPrefix[0] != Applied[0];
    } else if Trim(outcome.stdout) != [] {
      CleanIsBare(Trim(outcome.stdout));
    }
  }

  /**
   * A reply made only of a code fence passes the emptiness test yet cleans
   * to the empty pattern, which the transform then treats as no pattern.
   */
  lemma FenceOnlyReplyClearsPattern(err: string)
    ensures SuggestedPattern(Exited(true, "```", err)) == Some([])
  {
    assert !IsWhitespace('`');
    assert TrimEnd("```") == "```";
    assert Trim("```") == "```";
    assert RemoveAll("```", "```regex") == "```";
    assert "```"[..3] == "```" && "```"[3..] == [];
    assert RemoveAll("```", "```") == [];
  }
}
