/** The start-up check that decides whether the window opens by itself: the latest commit
    of the content repository against the one stored last time, and the window's own
    script on GitHub against the local copy, compared after normalisation. */
module CodeUpdate {
  import opened Text

  /** NormalizeCode: line endings to "\n", tabs to four spaces, outer white space
      trimmed. Comments are kept: they take part in the comparison like any other text. */
  function NormalizeCode(code: string): string {
    if code == "" then ""
    else Trim(ReplaceAll(ReplaceAll(ReplaceAll(code, "\r\n", "\n"), "\r", "\n"), "\t", "    "))
  }

  /** No carriage return and no tab survives, and the ends are not white space. */
  lemma NormalizedIsClean(code: string)
    ensures var r := NormalizeCode(code);
      '\r' !in r && '\t' !in r && (r == "" || (!IsWhiteSpace(r[0]) && !IsWhiteSpace(r[|r| - 1])))
  {
    if code != "" {
      var a := ReplaceAll(code, "\r\n", "\n");
      var b := ReplaceAll(a, "\r", "\n");
      var c := ReplaceAll(b, "\t", "    ");
      ReplaceRemovesChar(a, '\r', "\n", '\r');
      ReplaceRemovesChar(b, '\t', "    ", '\r');
      TrimKeepsAbsent(c, '\r');
      TrimKeepsAbsent(c, '\t');
    }
  }

  /** Normalising twice is normalising once. */
  lemma NormalizeIdempotent(code: string)
    ensures NormalizeCode(NormalizeCode(code)) == NormalizeCode(code)
  {
    var r := NormalizeCode(code);
    if r != "" {
      NormalizedIsClean(code);
      ReplaceAbsent(r, "\r\n", "\n");
      ReplaceAbsent(r, "\r", "\n");
      ReplaceAbsent(r, "\t", "    ");
      TrimIdempotent(ReplaceAll(ReplaceAll(ReplaceAll(code, "\r\n", "\n"), "\r", "\n"), "\t", "    "));
    }
  }

  /** Turning every "\n" into "\r\n" and back gives the text again. */
  lemma {:induction false} CrlfRoundTrip(s: string)
    requires '\r' !in s
    ensures ReplaceAll(ReplaceAll(s, "\n", "\r\n"), "\r\n", "\n") == s
    decreases |s|
  {
    if s != [] {
      CrlfRoundTrip(s[1..]);
      var rest := ReplaceAll(s[1..], "\n", "\r\n");
      if s[0] == '\n' {
        assert s[..1] == "\n";
        assert ReplaceAll(s, "\n", "\r\n") == "\r\n" + rest;
        assert ("\r\n" + rest)[..2] == "\r\n";
        assert ("\r\n" + rest)[2..] == rest;
      } else {
        assert s[0] in s;
        assert s[..1] != "\n";
        assert ReplaceAll(s, "\n", "\r\n") == [s[0]] + rest;
        if |[s[0]] + rest| >= 2 {
          assert s[0] != '\r';
          assert ([s[0]] + rest)[0] == s[0];
          assert ([s[0]] + rest)[..2][0] != "\r\n"[0];
          assert ([s[0]] + rest)[1..] == rest;
        } else {
          assert rest == [];
          assert s[1..] == [];
          assert s == [s[0]];
        }
      }
    }
  }

  /** Line endings do not count as a change: a text with "\n" line ends and the same
      text with "\r\n" line ends normalise alike. */
  lemma LineEndingsIgnored(s: string)
    requires '\r' !in s
    ensures NormalizeCode(ReplaceAll(s, "\n", "\r\n")) == NormalizeCode(s)
  {
    var w := ReplaceAll(s, "\n", "\r\n");
    CrlfRoundTrip(s);
    ReplaceAbsent(s, "\r\n", "\n");
    ReplaceAbsent(s, "\r", "\n");
    if s == "" {
      assert w == "";
    }
  }

  /** string.IsNullOrEmpty, with null as None. */
  predicate NullOrEmpty(s: Option<string>) {
    s.None? || s.value == ""
  }

  /** CheckForCodeUpdates: githubCode is the downloaded script (None when the download
      failed), localCode the local file (None when it does not exist). */
  function CheckForCodeUpdates(currentCommit: Option<string>, lastCommit: string,
                               githubCode: Option<string>, localCode: Option<string>): (r: bool)
    ensures r ==> !NullOrEmpty(currentCommit) && currentCommit.value != lastCommit && !NullOrEmpty(githubCode)
  {
    if NullOrEmpty(currentCommit) || currentCommit.value == lastCommit then false
    else if NullOrEmpty(githubCode) then false
    else
      var local := if localCode.Some? then localCode.value else "";
      NormalizeCode(githubCode.value) != NormalizeCode(local)
  }

  /** A script on GitHub that differs from the local copy only in its line endings is no
      update, whatever the commits say. */
  lemma CodeCheckIgnoresLineEndings(currentCommit: Option<string>, lastCommit: string, s: string)
    requires '\r' !in s
    ensures !CheckForCodeUpdates(currentCommit, lastCommit, Some(ReplaceAll(s, "\n", "\r\n")), Some(s))
  {
    LineEndingsIgnored(s);
  }

  /** What the start-up check does: whether it opens the window, and the commit it stores
      (None: the stored commit is left alone). */
  datatype Decision = Decision(open: bool, store: Option<string>)

  /** CheckForUpdatesAndAutoOpen, given the stored commit, the latest commit (None when
      the request failed) and the result of CheckForCodeUpdates. */
  function AutoOpen(lastCommit: string, currentCommit: Option<string>, hasUpdates: bool): (d: Decision)
    ensures d.store.Some? <==> !NullOrEmpty(currentCommit)
    ensures d.store.Some? ==> d.store == currentCommit
    ensures d.open ==> !NullOrEmpty(currentCommit)
  {
    if NullOrEmpty(currentCommit) then Decision(false, None)
    else Decision(lastCommit == "" || currentCommit.value != lastCommit || hasUpdates, currentCommit)
  }

  /** The code comparison never decides: it can only report an update when the commit
      changed, which opens the window anyway. So the window opens exactly when a commit
      was fetched and none was stored or it differs from the stored one. */
  lemma CodeCheckNeverDecides(lastCommit: string, currentCommit: Option<string>,
                              githubCode: Option<string>, localCode: Option<string>)
    ensures var d := AutoOpen(lastCommit, currentCommit,
                              CheckForCodeUpdates(currentCommit, lastCommit, githubCode, localCode));
      d.open <==> !NullOrEmpty(currentCommit) && (lastCommit == "" || currentCommit.value != lastCommit)
  {
  }

  /** Once the commit is stored, running the check again with the same commit does not
      open the window. */
  lemma StoredCommitQuiets(lastCommit: string, currentCommit: Option<string>,
                           githubCode: Option<string>, localCode: Option<string>)
    requires AutoOpen(lastCommit, currentCommit, false).store.Some?
    ensures var stored := AutoOpen(lastCommit, currentCommit, false).store.value;
      !AutoOpen(stored, currentCommit, CheckForCodeUpdates(currentCommit, stored, githubCode, localCode)).open
  {
  }
}
