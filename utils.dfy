/**
  Post-processing of generated story text: quote normalisation, trimming
  to the last complete sentence, blank-line collapsing, special-character
  removal, sentence spacing and single-line mode, file-name cleaning, and
  the newline encoding used for models that mark line ends with `</s>`.

  The application's global settings object is passed in explicitly as a
  `Vars` value: the story so far (a `Register` of actions), the prompt, and
  the action mode.
*/
module Utils {
  import opened Wrappers
  import opened PyStrings
  import opened Structures

  datatype Vars = Vars(actions: Register, prompt: string, actionMode: int)

  // ---------------------------------------------------------------- quotes

  const LeftDoubleQuote: char := '\U{201C}'
  const RightDoubleQuote: char := '\U{201D}'
  const RightSingleQuote: char := '\U{2019}'

  /** The typographic quotes that quote fixing replaces. */
  const FancyQuotes: set<char> := {LeftDoubleQuote, RightDoubleQuote, RightSingleQuote, '`'}

  /** What quote fixing does to one character. */
  function QuoteFixed(c: char): char {
    if c == LeftDoubleQuote || c == RightDoubleQuote then '"'
    else if c == RightSingleQuote || c == '`' then '\''
    else c
  }

  /**
    `fixquotes`: curly double quotes become `"`, the curly apostrophe and
    the backtick become `'`; every other character stays where it is.
  */
  function FixQuotes(txt: string): (r: string)
    ensures |r| == |txt|
    ensures forall i :: 0 <= i < |txt| ==> r[i] == QuoteFixed(txt[i])
    ensures forall i :: 0 <= i < |r| ==> r[i] !in FancyQuotes
  {
    var t1 := Replace(txt, [LeftDoubleQuote], "\"");
    var t2 := Replace(t1, [RightDoubleQuote], "\"");
    var t3 := Replace(t2, [RightSingleQuote], "'");
    var t4 := Replace(t3, ['`'], "'");
    ReplaceCharPointwise(txt, LeftDoubleQuote, '"');
    ReplaceCharPointwise(t1, RightDoubleQuote, '"');
    ReplaceCharPointwise(t2, RightSingleQuote, '\'');
    ReplaceCharPointwise(t3, '`', '\'');
    t4
  }

  // ------------------------------------------------------ sentence trimming

  predicate IsSentenceEnd(c: char) {
    c == '.' || c == '!' || c == '?'
  }

  predicate HasSentenceEnd(s: string) {
    exists i :: 0 <= i < |s| && IsSentenceEnd(s[i])
  }

  /** `s` ends with a sentence mark, or with a sentence mark and a closing `"`. */
  predicate EndsSentence(s: string) {
    && |s| > 0
    && (IsSentenceEnd(s[|s| - 1]) || (|s| >= 2 && s[|s| - 1] == '"' && IsSentenceEnd(s[|s| - 2])))
  }

  function Max(a: int, b: int): int {
    if a < b then b else a
  }

  /**
    `trimincompletesentence`: cut the text after its last `.`, `!` or `?`,
    keeping a `"` that directly follows that mark. The result is always a
    prefix of the input. Without any sentence mark the index -1 still
    looks at the first character, so text opening with `"` is cut to that
    one quote, and any other text is returned whole.
  */
  function TrimIncompleteSentence(txt: string): (r: string)
    ensures |r| <= |txt| && r == txt[..|r|]
    ensures forall j :: |r| <= j < |txt| ==> !IsSentenceEnd(txt[j])
    ensures HasSentenceEnd(txt) ==> EndsSentence(r)
    ensures HasSentenceEnd(txt) && IsSentenceEnd(r[|r| - 1]) && |r| < |txt| ==> txt[|r|] != '"'
    ensures !HasSentenceEnd(txt) ==> r == if |txt| > 0 && txt[0] == '"' then "\"" else txt
  {
    var ln := |txt|;
    var found := Max(Max(RFind(txt, '.'), RFind(txt, '!')), RFind(txt, '?'));
    var lastpunc := if found < ln - 1 && txt[found + 1] == '"' then found + 1 else found;
    if lastpunc >= 0 then txt[..lastpunc + 1] else txt
  }

  /**
    Trimming as evidently intended: text without any sentence mark is
    returned whole, also when it opens with `"`.
  */
  function TrimToLastSentence(txt: string): (r: string)
    ensures |r| <= |txt| && r == txt[..|r|]
    ensures forall j :: |r| <= j < |txt| ==> !IsSentenceEnd(txt[j])
    ensures HasSentenceEnd(txt) ==> EndsSentence(r)
    ensures HasSentenceEnd(txt) && IsSentenceEnd(r[|r| - 1]) && |r| < |txt| ==> txt[|r|] != '"'
    ensures !HasSentenceEnd(txt) ==> r == txt
  {
    var ln := |txt|;
    var found := Max(Max(RFind(txt, '.'), RFind(txt, '!')), RFind(txt, '?'));
    var lastpunc := if 0 <= found < ln - 1 && txt[found + 1] == '"' then found + 1 else found;
    if lastpunc >= 0 then txt[..lastpunc + 1] else txt
  }

  /**
    An unfinished quoted line with no sentence mark loses everything but
    its opening quote as written, and is kept whole by the intended trim.
  */
  lemma TrimKeepsOnlyOpeningQuote()
    ensures TrimIncompleteSentence("\"Hi") == "\""
    ensures TrimToLastSentence("\"Hi") == "\"Hi"
  {
  }

  // ------------------------------------------------------------ blank lines

  /**
    `replaceblanklines`: each `"\n\n"`, taken left to right without
    overlap, becomes `"\n"`. The text never grows, and it changes exactly
    when it holds two line breaks in a row. Only line breaks are removed,
    everything else stays in order, and at most half the line breaks go.
  */
  function ReplaceBlankLines(txt: string): (r: string)
    ensures |r| <= |txt|
    ensures r == txt <==> !Contains(txt, "\n\n")
    ensures Keep(r, {'\n'}) == Keep(txt, {'\n'})
    ensures 2 * multiset(r)['\n'] >= multiset(txt)['\n']
  {
    CollapseKeepsText(txt);
    Replace(txt, "\n\n", "\n")
  }

  /**
    Collapsing `"\n\n"` to `"\n"` removes nothing but line breaks, and
    keeps at least one of every two.
  */
  lemma {:induction false} CollapseKeepsText(s: string)
    ensures Keep(Replace(s, "\n\n", "\n"), {'\n'}) == Keep(s, {'\n'})
    ensures 2 * multiset(Replace(s, "\n\n", "\n"))['\n'] >= multiset(s)['\n']
    decreases |s|
  {
    if |s| > 0 {
      if StartsWith(s, "\n\n") {
        var rest := s[2..];
        CollapseKeepsText(rest);
        var r' := Replace(rest, "\n\n", "\n");
        assert Replace(s, "\n\n", "\n") == "\n" + r';
        assert s == "\n\n" + rest;
        KeepConcat("\n", r', {'\n'});
        KeepConcat("\n\n", rest, {'\n'});
        assert multiset("\n" + r') == multiset("\n") + multiset(r');
        assert multiset(s) == multiset("\n\n") + multiset(rest);
      } else {
        var rest := s[1..];
        CollapseKeepsText(rest);
        var r' := Replace(rest, "\n\n", "\n");
        assert Replace(s, "\n\n", "\n") == [s[0]] + r';
        assert s == [s[0]] + rest;
        KeepConcat([s[0]], r', {'\n'});
        KeepConcat([s[0]], rest, {'\n'});
        assert multiset([s[0]] + r') == multiset([s[0]]) + multiset(r');
        assert multiset(s) == multiset([s[0]]) + multiset(rest);
      }
    }
  }

  /** Three line breaks become two, and two become one: one pass does not remove every blank line. */
  lemma ReplaceBlankLinesNotIdempotent()
    ensures ReplaceBlankLines("\n\n\n") == "\n\n"
    ensures ReplaceBlankLines(ReplaceBlankLines("\n\n\n")) != ReplaceBlankLines("\n\n\n")
  {
    assert StartsWith("\n\n\n", "\n\n") && "\n\n\n"[2..] == "\n";
    assert !StartsWith("\n", "\n\n") && "\n"[1..] == "";
    assert Replace("\n\n\n", "\n\n", "\n") == "\n\n";
    assert StartsWith("\n\n", "\n\n") && "\n\n"[2..] == "";
    assert Replace("\n\n", "\n\n", "\n") == "\n";
  }

  // ------------------------------------------------------ special characters

  /** The characters of the bracket expression `[#/@%<>{}+=~|\^]`; `\^` there is an escaped caret. */
  const SpecialChars: set<char> := {'#', '/', '@', '%', '<', '>', '{', '}', '+', '=', '~', '|', '^'}

  /** The characters removed: all special characters, but `<` and `>` survive in a non-zero action mode. */
  function RemovedBy(vars: Option<Vars>): set<char> {
    if vars.None? || vars.value.actionMode == 0 then SpecialChars else SpecialChars - {'<', '>'}
  }

  /**
    `removespecialchars`: delete the special characters and keep every
    other character, in order and as often as it occurs.
  */
  function RemoveSpecialChars(txt: string, vars: Option<Vars>): (r: string)
    ensures forall i :: 0 <= i < |r| ==> r[i] !in RemovedBy(vars)
    ensures forall c :: c !in RemovedBy(vars) ==> multiset(r)[c] == multiset(txt)[c]
    ensures (forall i :: 0 <= i < |txt| ==> txt[i] !in RemovedBy(vars)) ==> r == txt
  {
    var r := if vars.None? || vars.value.actionMode == 0 then Keep(txt, SpecialChars)
             else Keep(txt, SpecialChars - {'<', '>'});
    KeepCounts(txt, RemovedBy(vars));
    r
  }

  /** Removing special characters a second time changes nothing. */
  lemma RemoveSpecialCharsIdempotent(txt: string, vars: Option<Vars>)
    ensures RemoveSpecialChars(RemoveSpecialChars(txt, vars), vars) == RemoveSpecialChars(txt, vars)
  {
  }

  /** Removal works character by character, so it distributes over concatenation. */
  lemma RemoveSpecialCharsConcat(a: string, b: string, vars: Option<Vars>)
    ensures RemoveSpecialChars(a + b, vars) == RemoveSpecialChars(a, vars) + RemoveSpecialChars(b, vars)
  {
    KeepConcat(a, b, RemovedBy(vars));
  }

  // --------------------------------------------------- joining to the story

  /**
    The text the next action continues: the last action in insertion
    order, or the prompt while there are no actions.
  */
  function StoryTail(vars: Vars): string {
    if |vars.actions.order| > 0 then vars.actions.text[LastKey(vars.actions)] else vars.prompt
  }

  /** `s` ends in a mark after which the next word needs a separating space. */
  predicate EndsWithClosure(s: string) {
    |s| > 0 && s[|s| - 1] in {'.', '!', '?', ',', ';', ':'}
  }

  /** The last character of `s` as a one-character string, or "" for empty `s`. */
  function LastChar(s: string): string {
    if |s| > 0 then [s[|s| - 1]] else ""
  }

  /**
    `addsentencespacing`: put one space before `txt` exactly when the story
    so far ends in `. ! ? , ; :`. An empty last action leaves `txt` as it is.
  */
  function AddSentenceSpacing(txt: string, vars: Vars): (r: string)
    ensures r == txt || r == " " + txt
    ensures r == " " + txt <==> EndsWithClosure(StoryTail(vars))
  {
    if |vars.actions.order| > 0 && |vars.actions.text[LastKey(vars.actions)]| == 0 then
      txt
    else
      var action := if |vars.actions.order| > 0 then vars.actions.text[LastKey(vars.actions)] else vars.prompt;
      var lastchar := LastChar(action);
      if lastchar == "." || lastchar == "!" || lastchar == "?" || lastchar == "," || lastchar == ";" || lastchar == ":" then
        " " + txt
      else
        txt
  }

  /**
    `singlelineprocessing`: apply the single-line filter `stripSingleLine`
    (a regular expression substitution), then end the text with a line
    break unless the story so far already ends with one. An empty last
    action adds nothing, while an empty prompt with no actions does get the
    line break.
  */
  function SingleLineProcessing(txt: string, vars: Vars, stripSingleLine: string -> string): (r: string)
    ensures r == stripSingleLine(txt) || r == stripSingleLine(txt) + "\n"
    ensures r == stripSingleLine(txt) + "\n" <==>
              && (|vars.actions.order| == 0 || StoryTail(vars) != "")
              && (StoryTail(vars) == "" || StoryTail(vars)[|StoryTail(vars)| - 1] != '\n')
  {
    var stripped := stripSingleLine(txt);
    if |vars.actions.order| > 0 && |vars.actions.text[LastKey(vars.actions)]| == 0 then
      stripped
    else
      var action := if |vars.actions.order| > 0 then vars.actions.text[LastKey(vars.actions)] else vars.prompt;
      if LastChar(action) != "\n" then stripped + "\n" else stripped
  }

  /**
    Right after a new action `v` is appended to the story, sentence spacing
    looks at `v`: the next text gets a leading space exactly when `v` ends
    in a closing mark.
  */
  lemma SpacingFollowsAppendedAction(txt: string, vars: Vars, k: int, v: string)
    requires k !in vars.actions.text
    ensures AddSentenceSpacing(txt, vars.(actions := Put(vars.actions, k, v)))
            == if EndsWithClosure(v) then " " + txt else txt
  {
  }

  // --------------------------------------------------------------- filenames

  const PathSeparators: set<char> := {'/', '\\'}

  /**
    `cleanfilename`: drop every `/` and `\`, then trailing whitespace. What
    is left is the separator-free name up to its last non-space character.
  */
  function CleanFilename(filename: string): (r: string)
    ensures forall i :: 0 <= i < |r| ==> r[i] != '/' && r[i] != '\\'
    ensures r == [] || !IsSpace(r[|r| - 1])
    ensures var kept := Keep(filename, PathSeparators);
            |r| <= |kept| && r == kept[..|r|] && forall j :: |r| <= j < |kept| ==> IsSpace(kept[j])
  {
    RStrip(Keep(filename, PathSeparators))
  }

  // ---------------------------------------------------------------- newlines

  /** The end-of-sentence tag that stands for a line break in newline mode "s". */
  const EndTag: string := "</s>"

  /** `encodenewlines`: in newline mode "s" every line break becomes `</s>`; otherwise nothing changes. */
  function EncodeNewlines(txt: string, newlineMode: string): (r: string)
    ensures newlineMode != "s" ==> r == txt
    ensures newlineMode == "s" ==> '\n' !in r
    ensures newlineMode == "s" ==> |r| >= |txt|
  {
    if newlineMode == "s" then
      ReplaceRemovesChar(txt, '\n', EndTag);
      EncodeLength(txt);
      Replace(txt, "\n", EndTag)
    else
      txt
  }

  /** `decodenewlines`: in newline mode "s" every `</s>` becomes a line break; otherwise nothing changes. */
  function DecodeNewlines(txt: string, newlineMode: string): (r: string)
    ensures newlineMode != "s" ==> r == txt
    ensures newlineMode == "s" ==> |r| <= |txt|
    ensures newlineMode == "s" && !Contains(txt, EndTag) ==> r == txt
  {
    if newlineMode == "s" then Replace(txt, EndTag, "\n") else txt
  }

  /** Encoding one character in front of the rest. */
  lemma EncodeCons(c: char, t: string)
    ensures Replace([c] + t, "\n", EndTag) == (if c == '\n' then EndTag else [c]) + Replace(t, "\n", EndTag)
  {
  }

  /** Encoding never shortens the text. */
  lemma {:induction false} EncodeLength(t: string)
    ensures |Replace(t, "\n", EndTag)| >= |t|
    decreases |t|
  {
    if |t| > 0 {
      assert t == [t[0]] + t[1..];
      EncodeCons(t[0], t[1..]);
      EncodeLength(t[1..]);
    }
  }

  /**
    Each `<` of encoded text is either an original `<` or opens an
    inserted tag, so a `<`-free prefix of the encoding was already a
    prefix of the original.
  */
  lemma {:induction false} EncodedPrefix(u: string, w: string)
    requires '<' !in w
    requires StartsWith(Replace(u, "\n", EndTag), w)
    ensures StartsWith(u, w)
    decreases |w|
  {
    if |w| > 0 {
      assert |u| > 0;
      assert u == [u[0]] + u[1..];
      EncodeCons(u[0], u[1..]);
      var rest := Replace(u[1..], "\n", EndTag);
      assert w[0] == Replace(u, "\n", EndTag)[0] && w[0] in w;
      if u[0] == '\n' {
        assert false;
      }
      assert w[1..] == (Replace(u, "\n", EndTag))[1..|w|];
      assert StartsWith(rest, w[1..]);
      EncodedPrefix(u[1..], w[1..]);
    }
  }

  /** Decoding encoded text gives the text back, provided it held no `</s>` of its own. */
  lemma {:induction false} DecodeEncodeRoundTrip(t: string, newlineMode: string)
    requires !Contains(t, EndTag)
    ensures DecodeNewlines(EncodeNewlines(t, newlineMode), newlineMode) == t
    decreases |t|
  {
    if newlineMode == "s" && |t| > 0 {
      var c, rest := t[0], t[1..];
      assert t == [c] + rest;
      assert !Contains(rest, EndTag);
      DecodeEncodeRoundTrip(rest, newlineMode);
      EncodeCons(c, rest);
      var e := Replace(rest, "\n", EndTag);
      if c == '\n' {
        assert StartsWith(EndTag + e, EndTag);
        assert (EndTag + e)[|EndTag|..] == e;
      } else {
        if StartsWith([c] + e, EndTag) {
          assert e[..3] == ([c] + e)[1..4] == "/s>";
          EncodedPrefix(rest, "/s>");
          assert false;
        }
        assert ([c] + e)[1..] == e;
      }
    }
  }

  /** Text that already holds `</s>` does not survive the round trip: `</s>` comes back as a line break. */
  lemma RoundTripNeedsNoTag()
    ensures DecodeNewlines(EncodeNewlines(EndTag, "s"), "s") == "\n"
  {
  }
}
