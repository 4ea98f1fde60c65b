/**
 * The template codec of src/python.rs: the editable view of an operation
 * (boilerplate, marker line, body), extraction of the body from an edited
 * view, splicing a body into the runner script, and the whitespace
 * tokenisation of the interpreter command.
 */
module Python {
  import opened Wrappers
  import opened Text
  import opened Utils

  /**
   * The sentinel line above which the user must not edit. It is one literal
   * in the source; here it is joined from two halves, because the verifier
   * reads the characters of a literal this long only piece by piece.
   */
  const Marker: string := "## Write your code below, modify" + " the code above, and DO NOT remove this line"

  /** The marker followed by its newline: what `get_operation_python` searches for. */
  const MarkerLine: string := Marker + "\n"

  /** Section markers of the bundled runner script, as src/python.rs passes them to `get_content_const!`. */
  const InitStart: string := "## Init collected data start"
  const InitEnd: string := "## Init collected data end"
  const TemplateStart: string := "## Operation template start"
  const TemplateEnd: string := "## Operation template end"

  /**
   * The process-wide boilerplate: the runner script text (runner.py), the
   * preamble shown above the marker (INIT_COLLECTED_DATA_STR) and the default
   * operation body (OPERATION_TEMPLE_STR).
   */
  datatype Assets = Assets(runner: string, init: string, template: string)

  /**
   * The compile-time `get_content_const!` expansions: both constants are cut
   * out of the runner text, and a failed extraction is a compile error (None).
   * What the macro yields is non-empty, and the template is a piece of the runner.
   */
  function LoadAssets(runner: string): (r: Option<Assets>)
    ensures r.Some? ==> r.value.runner == runner
    ensures r.Some? ==> r.value.init != [] && r.value.template != []
    ensures r.Some? ==> Contains(runner, r.value.template)
  {
    var init := GetContent(runner, InitStart, Some(InitEnd));
    var template := GetContent(runner, TemplateStart, Some(TemplateEnd));
    if init.Ok? && template.Ok? then
      ResultOccurs(runner, TemplateStart, Some(TemplateEnd));
      Some(Assets(runner, init.value, template.value))
    else
      None
  }

  /** `get_operation_temple_python`: preamble, marker line, then the body or the default template. */
  function EditView(a: Assets, userContent: Option<string>): string {
    a.init + "\n" + Marker + "\n" + userContent.GetOr(a.template)
  }

  /** `get_operation_python`: everything after the first marker line. */
  function OperationBody(view: string): Result<string, ExtractError> {
    GetContent(view, MarkerLine, None)
  }

  /** `create_operation_runner_python`: every template block of the runner becomes the body between newlines. */
  function RunnerScript(a: Assets, body: string): string {
    ReplaceAll(a.runner, a.template, "\n" + body + "\n")
  }

  lemma MarkerHasNoNewline()
    ensures NoNewline(Marker)
  {
    assert NoNewline("## Write your code below, modify");
    assert NoNewline(" the code above, and DO NOT remove this line");
  }

  predicate NoNewline(s: string) {
    forall k :: 0 <= k < |s| ==> s[k] != '\n'
  }

  /**
   * Extraction returns everything after the FIRST marker line, whatever it
   * holds (later marker lines, boilerplate), provided the text before it has
   * no marker line; with nothing after it, it fails with the empty-result error.
   */
  lemma {:induction false} BodyAfterFirstMarkerLine(pre: string, rest: string)
    requires !Contains(pre, MarkerLine)
    ensures OperationBody(pre + MarkerLine + rest) == if rest == [] then Err(EmptyResult) else Ok(rest)
  {
    var view := pre + MarkerLine + rest;
    assert view[|pre|..|pre| + |MarkerLine|] == MarkerLine;
    forall j: nat | j < |pre| ensures !OccursAt(view, MarkerLine, j) {
      NoMarkerLineBefore(pre, rest, j);
    }
    FindIsFirst(view, MarkerLine, |pre|);
    assert view[|pre| + |MarkerLine|..] == rest;
  }

  lemma NoMarkerLineBefore(pre: string, rest: string, j: nat)
    requires !Contains(pre, MarkerLine)
    requires j < |pre|
    ensures !OccursAt(pre + MarkerLine + rest, MarkerLine, j)
  {
    var view := pre + MarkerLine + rest;
    if j + |MarkerLine| <= |pre| {
      assert view[j..j + |MarkerLine|] == pre[j..j + |MarkerLine|];
      assert !OccursAt(pre, MarkerLine, j);
    } else {
      NewlineInsideMarker(pre, rest, j);
    }
  }

  /** A window that starts in the preamble and reaches the marker line has a marker character where its newline should be. */
  lemma NewlineInsideMarker(pre: string, rest: string, j: nat)
    requires j < |pre| < j + |MarkerLine|
    ensures !OccursAt(pre + MarkerLine + rest, MarkerLine, j)
  {
    var view := pre + MarkerLine + rest;
    var q := j + |Marker|;
    MarkerHasNoNewline();
    assert view[q] == Marker[q - |pre|];
    assert view[q] != MarkerLine[|Marker|];
    if j + |MarkerLine| <= |view| {
      assert view[j..j + |MarkerLine|][|Marker|] == view[q];
    }
  }

  /** A preamble without the marker has no marker line even with its newline appended. */
  lemma PreambleHasNoMarkerLine(init: string)
    requires !Contains(init, Marker)
    ensures !Contains(init + "\n", MarkerLine)
  {
    if Contains(init + "\n", MarkerLine) {
      var j: nat :| OccursAt(init + "\n", MarkerLine, j);
      assert (init + "\n")[j..j + |Marker|] == MarkerLine[..|Marker|];
      assert init[j..j + |Marker|] == (init + "\n")[j..j + |Marker|];
      assert OccursAt(init, Marker, j);
    }
  }

  /**
   * The edit/save round trip: saving the view shown for editing gives back the
   * body shown (the stored body, or the default template), provided the
   * preamble does not contain the marker; an empty body cannot be saved.
   */
  lemma RoundTrip(a: Assets, userContent: Option<string>)
    requires !Contains(a.init, Marker)
    ensures var body := userContent.GetOr(a.template);
      OperationBody(EditView(a, userContent)) == if body == [] then Err(EmptyResult) else Ok(body)
  {
    var body := userContent.GetOr(a.template);
    PreambleHasNoMarkerLine(a.init);
    assert EditView(a, userContent) == (a.init + "\n") + MarkerLine + body;
    BodyAfterFirstMarkerLine(a.init + "\n", body);
  }

  /** With the bundled boilerplate, the default template shown for a new operation saves back unchanged. */
  lemma TemplateRoundTrip(runner: string)
    requires LoadAssets(runner).Some?
    requires !Contains(LoadAssets(runner).value.init, Marker)
    ensures var a := LoadAssets(runner).value;
      OperationBody(EditView(a, None)) == Ok(a.template)
  {
    RoundTrip(LoadAssets(runner).value, None);
  }

  /**
   * Extraction fails with start-not-found exactly when the marker line (the
   * marker or its newline) was removed, and with empty-result exactly when
   * nothing follows the first marker line.
   */
  lemma OperationBodyErrors(view: string)
    ensures OperationBody(view) == Err(StartNotFound) <==> !Contains(view, MarkerLine)
    ensures OperationBody(view) == Err(EmptyResult)
            <==> Contains(view, MarkerLine) && StartIndex(view, MarkerLine) == |view|
  {
    StartNotFoundIff(view, MarkerLine, None);
    if Contains(view, MarkerLine) {
      WithoutEnd(view, MarkerLine);
    }
  }

  /** A runner without the template block is returned unchanged. */
  lemma RunnerScriptWithoutTemplate(a: Assets, body: string)
    requires a.template != []
    requires !Contains(a.runner, a.template)
    ensures RunnerScript(a, body) == a.runner
  {
    ReplaceAllAbsent(a.runner, a.template, "\n" + body + "\n");
  }

  /**
   * A runner holding the template block has it replaced, so the script
   * contains the body, on lines of its own.
   */
  lemma RunnerScriptSplices(a: Assets, body: string)
    requires a.template != []
    requires Contains(a.runner, a.template)
    ensures Contains(RunnerScript(a, body), "\n" + body + "\n")
    ensures Contains(RunnerScript(a, body), body)
  {
    ReplaceAllInserts(a.runner, a.template, "\n" + body + "\n");
    ContainsInfix("\n", body, "\n");
    ContainsTransitive(RunnerScript(a, body), "\n" + body + "\n", body);
  }

  /** With the bundled boilerplate, the runner script always carries the operation body. */
  lemma BundledRunnerHoldsBody(runner: string, body: string)
    requires LoadAssets(runner).Some?
    ensures Contains(RunnerScript(LoadAssets(runner).value, body), body)
  {
    RunnerScriptSplices(LoadAssets(runner).value, body);
  }

  /** The unit test's runner: a body made of the template and a print line holds that print line. */
  lemma RunnerTestExample(a: Assets)
    requires a.template != [] && Contains(a.runner, a.template)
    ensures Contains(RunnerScript(a, a.template + "\nprint('Hello!')"), "print('Hello!')")
  {
    var body := a.template + "\nprint('Hello!')";
    RunnerScriptSplices(a, body);
    PrintLineLast(a.template);
    ContainsSuffix(a.template + "\n", "print('Hello!')");
    ContainsTransitive(RunnerScript(a, body), body, "print('Hello!')");
  }

  lemma PrintLineLast(t: string)
    ensures t + "\nprint('Hello!')" == (t + "\n") + "print('Hello!')"
  {
  }

  // ---------------------------------------------------------------------------
  // Interpreter command tokenisation (`run_python_code`)
  // ---------------------------------------------------------------------------

  /** Rust's `char::is_whitespace`: the Unicode White_Space characters. */
  predicate IsWhitespace(c: char) {
    || c == '\t' || c == '\n' || c == '\U{B}' || c == '\U{C}' || c == '\r' || c == ' '
    || c == '\U{85}' || c == '\U{A0}' || c == '\U{1680}'
    || ('\U{2000}' <= c <= '\U{200A}')
    || c == '\U{2028}' || c == '\U{2029}' || c == '\U{202F}' || c == '\U{205F}' || c == '\U{3000}'
  }

  /** Length of the run of non-whitespace characters that starts `s`. */
  function WordLength(s: string): (n: nat)
    ensures n <= |s|
    ensures forall k :: 0 <= k < n ==> !IsWhitespace(s[k])
    ensures n == |s| || IsWhitespace(s[n])
    decreases |s|
  {
    if s == [] || IsWhitespace(s[0]) then 0 else 1 + WordLength(s[1..])
  }

  /** Rust's `split_whitespace`: the maximal runs of non-whitespace characters, in order. */
  function SplitWhitespace(s: string): seq<string>
    decreases |s|
  {
    if s == [] then []
    else if IsWhitespace(s[0]) then SplitWhitespace(s[1..])
    else
      var n := WordLength(s);
      [s[..n]] + SplitWhitespace(s[n..])
  }

  /** `s` with its whitespace characters removed. */
  function NonWhitespace(s: string): string
    decreases |s|
  {
    if s == [] then []
    else if IsWhitespace(s[0]) then NonWhitespace(s[1..])
    else [s[0]] + NonWhitespace(s[1..])
  }

  function Concat(words: seq<string>): string {
    if words == [] then [] else words[0] + Concat(words[1..])
  }

  predicate IsWord(w: string) {
    w != [] && forall k :: 0 <= k < |w| ==> !IsWhitespace(w[k])
  }

  lemma {:induction false} NonWhitespaceOfWord(s: string, n: nat)
    requires n <= |s|
    requires forall k :: 0 <= k < n ==> !IsWhitespace(s[k])
    ensures NonWhitespace(s) == s[..n] + NonWhitespace(s[n..])
    decreases n
  {
    if n > 0 {
      NonWhitespaceOfWord(s[1..], n - 1);
      assert s[1..][n - 1..] == s[n..];
      assert [s[0]] + s[1..][..n - 1] == s[..n];
    }
  }

  /**
   * The tokens are non-empty and hold no whitespace, and together they are
   * exactly the non-whitespace characters of the input, in order.
   */
  lemma {:induction false} SplitWhitespaceSpec(s: string)
    ensures forall k :: 0 <= k < |SplitWhitespace(s)| ==> IsWord(SplitWhitespace(s)[k])
    ensures Concat(SplitWhitespace(s)) == NonWhitespace(s)
    decreases |s|
  {
    if s == [] {
    } else if IsWhitespace(s[0]) {
      SplitWhitespaceSpec(s[1..]);
    } else {
      var n := WordLength(s);
      SplitWhitespaceSpec(s[n..]);
      NonWhitespaceOfWord(s, n);
      var words := SplitWhitespace(s);
      assert words == [s[..n]] + SplitWhitespace(s[n..]);
      assert words[1..] == SplitWhitespace(s[n..]);
    }
  }

  /** Position `i` starts a word: a non-whitespace character at the start or after whitespace. */
  predicate WordStart(s: string, i: nat)
    requires i < |s|
  {
    !IsWhitespace(s[i]) && (i == 0 || IsWhitespace(s[i - 1]))
  }

  /** The positions from `i` on that start a word, ascending. */
  function WordStartsFrom(s: string, i: nat): seq<nat>
    decreases |s| - i
  {
    if i >= |s| then []
    else if WordStart(s, i) then [i] + WordStartsFrom(s, i + 1)
    else WordStartsFrom(s, i + 1)
  }

  /** `WordStartsFrom(s, i)` lists exactly the word starts at or after `i`, ascending. */
  lemma {:induction false} WordStartsFromSpec(s: string, i: nat)
    ensures var r := WordStartsFrom(s, i);
      && (forall k | 0 <= k < |r| :: i <= r[k] < |s| && WordStart(s, r[k]))
      && (forall k, l | 0 <= k < l < |r| :: r[k] < r[l])
      && (forall j | i <= j < |s| && WordStart(s, j) :: j in r)
    decreases |s| - i
  {
    if i < |s| {
      WordStartsFromSpec(s, i + 1);
      var r := WordStartsFrom(s, i);
      var t := WordStartsFrom(s, i + 1);
      if WordStart(s, i) {
        assert r == [i] + t;
        forall k | 0 < k < |r| ensures r[k] == t[k - 1] { }
        forall k, l | 0 <= k < l < |r| ensures r[k] < r[l] {
          if k > 0 {
            assert r[k] == t[k - 1] && r[l] == t[l - 1];
          }
        }
        forall j | i <= j < |s| && WordStart(s, j) ensures j in r {
          if j > i {
            assert j in t;
          }
        }
      } else {
        assert r == t;
        forall j | i <= j < |s| && WordStart(s, j) ensures j in r {
          assert j != i;
        }
      }
    }
  }

  /** Inside a word (after its first character) no word starts. */
  lemma {:induction false} NoStartInsideWord(s: string, i: nat, n: nat, j: nat)
    requires i < j <= i + n <= |s|
    requires forall k | i <= k < i + n :: !IsWhitespace(s[k])
    ensures WordStartsFrom(s, j) == WordStartsFrom(s, i + n)
    decreases i + n - j
  {
    if j < i + n {
      assert !WordStart(s, j) by {
        assert !IsWhitespace(s[j - 1]);
      }
      NoStartInsideWord(s, i, n, j + 1);
    }
  }

  /** `t` is the maximal word of `s` that starts at `st`. */
  predicate WordAt(s: string, st: nat, t: string)
    requires st <= |s|
  {
    t == s[st..st + WordLength(s[st..])]
  }

  /** Each token is the maximal word of `s` at the corresponding start. */
  predicate Matches(s: string, tokens: seq<string>, starts: seq<nat>)
    decreases |tokens|
  {
    && |tokens| == |starts|
    && (tokens != [] ==>
          && starts[0] <= |s| && WordAt(s, starts[0], tokens[0])
          && Matches(s, tokens[1..], starts[1..]))
  }

  /** The `k`-th token of a match is the maximal word at the `k`-th start. */
  lemma {:induction false} MatchesAt(s: string, tokens: seq<string>, starts: seq<nat>, k: nat)
    requires Matches(s, tokens, starts) && k < |tokens|
    ensures starts[k] <= |s| && WordAt(s, starts[k], tokens[k])
    decreases k
  {
    if k > 0 {
      MatchesAt(s, tokens[1..], starts[1..], k - 1);
    }
  }

  /** The tokens of `s[i..]` are the maximal words at the word starts from `i` on, in order. */
  predicate TokensFrom(s: string, i: nat)
    requires i <= |s|
  {
    Matches(s, SplitWhitespace(s[i..]), WordStartsFrom(s, i))
  }

  /**
   * From a position not inside a word, the tokens of the rest of `s` are
   * the maximal words starting at the word starts, one per start, in order.
   */
  lemma {:induction false} SplitFrom(s: string, i: nat)
    requires i <= |s|
    requires i == 0 || i == |s| || IsWhitespace(s[i - 1]) || IsWhitespace(s[i])
    ensures TokensFrom(s, i)
    decreases |s| - i
  {
    if i == |s| {
      assert s[i..] == [];
    } else if IsWhitespace(s[i]) {
      SkipWhitespace(s, i);
      SplitFrom(s, i + 1);
    } else {
      var n := WordLength(s[i..]);
      SkipWord(s, i, n);
      SplitFrom(s, i + n);
      ConsTokens(s, i, n);
    }
  }

  /** A maximal word in front of correctly split text gives correctly split text. */
  lemma ConsTokens(s: string, i: nat, n: nat)
    requires i + n <= |s| && WordAt(s, i, s[i..i + n]) && TokensFrom(s, i + n)
    requires SplitWhitespace(s[i..]) == [s[i..i + n]] + SplitWhitespace(s[i + n..])
    requires WordStartsFrom(s, i) == [i] + WordStartsFrom(s, i + n)
    ensures TokensFrom(s, i)
  {
    assert ([s[i..i + n]] + SplitWhitespace(s[i + n..]))[1..] == SplitWhitespace(s[i + n..]);
    assert ([i] + WordStartsFrom(s, i + n))[1..] == WordStartsFrom(s, i + n);
  }

  /** A whitespace character adds no token and starts no word. */
  lemma SkipWhitespace(s: string, i: nat)
    requires i < |s| && IsWhitespace(s[i])
    ensures SplitWhitespace(s[i..]) == SplitWhitespace(s[i + 1..])
    ensures WordStartsFrom(s, i) == WordStartsFrom(s, i + 1)
  {
    assert s[i..][1..] == s[i + 1..];
  }

  /** A word at a word start is one token, and the next word start lies past it. */
  lemma SkipWord(s: string, i: nat, n: nat)
    requires i < |s| && !IsWhitespace(s[i])
    requires i == 0 || IsWhitespace(s[i - 1])
    requires n == WordLength(s[i..])
    ensures 0 < n && i + n <= |s|
    ensures SplitWhitespace(s[i..]) == [s[i..i + n]] + SplitWhitespace(s[i + n..])
    ensures WordStartsFrom(s, i) == [i] + WordStartsFrom(s, i + n)
    ensures i + n == |s| || IsWhitespace(s[i + n])
    ensures WordAt(s, i, s[i..i + n])
  {
    assert WordStart(s, i);
    assert s[i..][n..] == s[i + n..];
    assert s[i..][..n] == s[i..i + n];
    forall k | i <= k < i + n ensures !IsWhitespace(s[k]) {
      assert s[k] == s[i..][k - i];
    }
    NoStartInsideWord(s, i, n, i + 1);
    if i + n < |s| {
      assert s[i + n] == s[i..][n];
    }
  }

  /**
   * `split_whitespace` yields the maximal words: one token per word start,
   * in order, each running from its start to the next whitespace or the end.
   */
  lemma SplitWhitespaceMaximal(s: string)
    ensures var tokens := SplitWhitespace(s);
      var starts := WordStartsFrom(s, 0);
      && |tokens| == |starts|
      && forall k | 0 <= k < |tokens| ::
           && starts[k] + |tokens[k]| <= |s|
           && tokens[k] == s[starts[k]..starts[k] + |tokens[k]|]
           && (starts[k] + |tokens[k]| == |s| || IsWhitespace(s[starts[k] + |tokens[k]|]))
  {
    assert s[0..] == s;
    SplitFrom(s, 0);
    var tokens := SplitWhitespace(s);
    var starts := WordStartsFrom(s, 0);
    forall k | 0 <= k < |tokens|
      ensures starts[k] + |tokens[k]| <= |s| && tokens[k] == s[starts[k]..starts[k] + |tokens[k]|]
      ensures starts[k] + |tokens[k]| == |s| || IsWhitespace(s[starts[k] + |tokens[k]|])
    {
      MatchesAt(s, tokens, starts, k);
      WordEnds(s, starts[k], tokens[k]);
    }
  }

  /** A maximal word ends at whitespace or at the end of the text. */
  lemma WordEnds(s: string, st: nat, t: string)
    requires st <= |s| && WordAt(s, st, t)
    ensures st + |t| <= |s| && t == s[st..st + |t|]
    ensures st + |t| == |s| || IsWhitespace(s[st + |t|])
  {
    var n := WordLength(s[st..]);
    if st + n < |s| {
      assert s[st + n] == s[st..][n];
    }
  }

  /** How `run_python_code` launches the interpreter: the program and its arguments. */
  datatype Invocation = Invocation(program: string, args: seq<string>)

  /**
   * The interpreter command is split on whitespace; its first token is the
   * program ("python3" when there is none), the other tokens come before the
   * script path, and the caller's arguments come last.
   */
  function PythonInvocation(pythonRunner: string, scriptPath: string, args: seq<string>): (r: Invocation)
    ensures SplitWhitespace(pythonRunner) == [] ==> r == Invocation("python3", [scriptPath] + args)
    ensures |r.args| >= |args| + 1
    ensures r.args[|r.args| - |args| - 1] == scriptPath && r.args[|r.args| - |args|..] == args
    ensures SplitWhitespace(pythonRunner) != [] ==>
              [r.program] + r.args[..|r.args| - |args| - 1] == SplitWhitespace(pythonRunner)
  {
    var tokens := SplitWhitespace(pythonRunner);
    var program := if |tokens| > 0 then tokens[0] else "python3";
    var leading := if |tokens| >= 1 then tokens[1..] else [];
    var r := Invocation(program, leading + [scriptPath] + args);
    assert r.args[..|r.args| - |args| - 1] == leading;
    r
  }

  /** The program launched is a single word: never empty, never holding whitespace. */
  lemma ProgramIsAWord(pythonRunner: string, scriptPath: string, args: seq<string>)
    ensures IsWord(PythonInvocation(pythonRunner, scriptPath, args).program)
  {
    SplitWhitespaceSpec(pythonRunner);
    assert IsWord("python3");
  }
}
