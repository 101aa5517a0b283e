/**
 * The line prompts of Action.Ask. Each prompt reads lines until one is
 * accepted or is the cancellation sentinel `!cancel` (in any case). Console
 * input is a finite sequence of lines; once it is used up ReadLine yields
 * null, which the prompts read as the empty string. A prompt that would keep
 * re-asking on that empty string never returns; the model reports this as
 * Unanswered.
 */
module Ask {
  import opened Strings

  /** What a prompt makes of one line. */
  datatype Verdict<T> = Cancel | Accept(value: T) | Retry

  /** What a whole prompt returns: null (Cancelled), a value, or nothing
      because the input ran out while the prompt kept asking. */
  datatype Answer<T> = Cancelled | Answered(value: T) | Unanswered

  const CancelWord: string := "!cancel"

  /** The cancellation sentinel, compared ignoring case. */
  predicate IsCancel(line: string) {
    EqualsIgnoreCase(line, CancelWord)
  }

  /** The sentinel matches itself written in capitals. */
  lemma CancelWordAnyCase(line: string)
    ensures EqualsIgnoreCase(line, "!CANCEL") <==> IsCancel(line)
  {
    assert forall i :: 0 <= i < |CancelWord| ==> LowerChar("!CANCEL"[i]) == LowerChar(CancelWord[i]);
  }

  /** A number as Int32.ToString writes it is never the sentinel: it ends
      in a digit. */
  lemma FormatNotCancel(n: int)
    ensures !IsCancel(FormatInt(n))
  {
    var f := FormatInt(n);
    if |f| == |CancelWord| {
      assert LowerChar(f[6]) != LowerChar(CancelWord[6]);
    }
  }

  function ToAnswer<T>(v: Verdict<T>): (a: Answer<T>)
    requires !v.Retry?
    ensures a.Cancelled? <==> v.Cancel?
    ensures a.Answered? ==> v == Accept(a.value)
  {
    match v
    case Cancel => Cancelled
    case Accept(x) => Answered(x)
  }

  /** `rest` is what is left of `lines` after a prompt read at least one
      line (when there was one). */
  predicate Consumes(lines: seq<string>, rest: seq<string>) {
    && |rest| <= |lines|
    && rest == lines[|lines| - |rest|..]
    && (lines != [] ==> |rest| < |lines|)
  }

  /** Consuming the tail consumes the whole. */
  lemma ConsumesTail(lines: seq<string>, rest: seq<string>)
    requires lines != [] && Consumes(lines[1..], rest)
    ensures Consumes(lines, rest)
  {
    assert lines[1..][|lines| - 1 - |rest|..] == lines[|lines| - |rest|..];
  }

  /** `Console.ReadLine() ?? string.Empty`: the next line, or the empty
      string once the input is used up. */
  function ReadLine(lines: seq<string>): string {
    if lines == [] then "" else lines[0]
  }

  /** The input after ReadLine. */
  function Next(lines: seq<string>): (rest: seq<string>)
    ensures Consumes(lines, rest)
  {
    if lines == [] then [] else lines[1..]
  }

  // ---------------------------------------------------------------------------
  // Ask.String
  // ---------------------------------------------------------------------------

  /** One line of Ask.String: cancellation first; then a line that is not
      blank is returned verbatim; a blank line is returned verbatim only when
      emptiness is not checked. */
  function StringVerdict(line: string, checkEmpty: bool): (v: Verdict<string>)
    ensures v.Cancel? <==> IsCancel(line)
    ensures v.Retry? <==> !IsCancel(line) && checkEmpty && IsBlank(line)
    ensures v.Accept? ==> v.value == line
  {
    if IsCancel(line) then Cancel
    else if !IsBlank(line) then Accept(line)
    else if !checkEmpty then Accept(line)
    else Retry
  }

  /** What Ask.String returns on the input `lines`, and the input left. The
      answer is never the sentinel, and never blank when emptiness is
      checked; only a prompt that checks emptiness can be left waiting. */
  function StringReply(lines: seq<string>, checkEmpty: bool): (r: (Answer<string>, seq<string>))
    ensures Consumes(lines, r.1)
    ensures r.0.Unanswered? ==> r.1 == [] && checkEmpty
    ensures r.0.Answered? ==> !IsCancel(r.0.value) && (checkEmpty ==> !IsBlank(r.0.value))
    decreases |lines|
  {
    var v := StringVerdict(ReadLine(lines), checkEmpty);
    if !v.Retry? then (ToAnswer(v), Next(lines))
    else if lines == [] then (Unanswered, [])
    else
      var r := StringReply(lines[1..], checkEmpty);
      ConsumesTail(lines, r.1);
      r
  }

  /** The text Ask.String returns is one of the lines, verbatim, or the
      empty string read at the end of input. */
  lemma {:induction false} StringReplyFromInput(lines: seq<string>, checkEmpty: bool)
    requires StringReply(lines, checkEmpty).0.Answered?
    ensures var s := StringReply(lines, checkEmpty).0.value;
      s == "" || exists i :: 0 <= i < |lines| && lines[i] == s
    decreases |lines|
  {
    var s := StringReply(lines, checkEmpty).0.value;
    if lines != [] && StringVerdict(lines[0], checkEmpty).Retry? {
      StringReplyFromInput(lines[1..], checkEmpty);
      if s != "" {
        var i :| 0 <= i < |lines[1..]| && lines[1..][i] == s;
        assert lines[i + 1] == s;
      }
    }
  }

  /** Ask.String(prompt, checkEmpty). */
  method AskString(lines: seq<string>, checkEmpty: bool) returns (answer: Answer<string>, rest: seq<string>)
    ensures (answer, rest) == StringReply(lines, checkEmpty)
  {
    var remaining := lines;
    while true
      invariant StringReply(remaining, checkEmpty) == StringReply(lines, checkEmpty)
      decreases |remaining|
    {
      var input := ReadLine(remaining);
      if IsCancel(input) {
        return Cancelled, Next(remaining);
      }
      if !IsBlank(input) {
        return Answered(input), Next(remaining);
      } else if !checkEmpty {
        return Answered(input), Next(remaining);
      }
      if remaining == [] {
        return Unanswered, [];
      }
      remaining := remaining[1..];
    }
  }

  /** With emptiness checked, blank lines are asked again: they change
      nothing but the amount of input consumed. */
  lemma {:induction false} StringSkipsBlankLines(blank: seq<string>, lines: seq<string>)
    requires forall i :: 0 <= i < |blank| ==> IsBlank(blank[i])
    ensures StringReply(blank + lines, true) == StringReply(lines, true)
  {
    if blank != [] {
      EqualsIgnoreCaseNotBlank(blank[0], CancelWord);
      assert CancelWord[0] == '!';
      assert (blank + lines)[0] == blank[0];
      assert (blank + lines)[1..] == blank[1..] + lines;
      StringSkipsBlankLines(blank[1..], lines);
    } else {
      assert blank + lines == lines;
    }
  }

  // ---------------------------------------------------------------------------
  // Ask.Int
  // ---------------------------------------------------------------------------

  /** The value Ask.Int treats as "no default". */
  const NoDefault: int := -1

  /** One line of Ask.Int: cancellation first; then a line that parses as a
      32-bit integer; otherwise the default, unless the default is -1, in
      which case the prompt asks again. */
  function IntVerdict(line: string, defaultValue: int): (v: Verdict<int>)
    ensures v.Cancel? <==> IsCancel(line)
    ensures v.Retry? <==> !IsCancel(line) && ParseInt(line).None? && defaultValue == NoDefault
    ensures v.Accept? ==> v.value == (if ParseInt(line).Some? then ParseInt(line).value else defaultValue)
  {
    if IsCancel(line) then Cancel
    else
      var parsed := ParseInt(line);
      if parsed.Some? && !IsBlank(line) then Accept(parsed.value)
      else if defaultValue != NoDefault then Accept(defaultValue)
      else Retry
  }

  /** What Ask.Int returns on the input `lines`, and the input left. Only
      the prompt without a default can be left waiting. */
  function IntReply(lines: seq<string>, defaultValue: int): (r: (Answer<int>, seq<string>))
    ensures Consumes(lines, r.1)
    ensures r.0.Unanswered? ==> r.1 == [] && defaultValue == NoDefault
    ensures r.0.Answered? ==> IsInt32(r.0.value) || r.0.value == defaultValue
    decreases |lines|
  {
    var v := IntVerdict(ReadLine(lines), defaultValue);
    if !v.Retry? then (ToAnswer(v), Next(lines))
    else if lines == [] then (Unanswered, [])
    else
      var r := IntReply(lines[1..], defaultValue);
      ConsumesTail(lines, r.1);
      r
  }

  /** The number Ask.Int returns is the default or was typed on one of the
      lines. */
  lemma {:induction false} IntReplyFromInput(lines: seq<string>, defaultValue: int)
    requires IntReply(lines, defaultValue).0.Answered?
    ensures var n := IntReply(lines, defaultValue).0.value;
      n == defaultValue || exists i :: 0 <= i < |lines| && ParseInt(lines[i]) == Some(n)
    decreases |lines|
  {
    var n := IntReply(lines, defaultValue).0.value;
    if lines != [] && IntVerdict(lines[0], defaultValue).Retry? {
      IntReplyFromInput(lines[1..], defaultValue);
      if n != defaultValue {
        var i :| 0 <= i < |lines[1..]| && ParseInt(lines[1..][i]) == Some(n);
        assert ParseInt(lines[i + 1]) == Some(n);
      }
    } else if lines != [] && n != defaultValue {
      assert ParseInt(lines[0]) == Some(n);
    }
  }

  /** Ask.Int(prompt, defaultValue). */
  method AskInt(lines: seq<string>, defaultValue: int) returns (answer: Answer<int>, rest: seq<string>)
    ensures (answer, rest) == IntReply(lines, defaultValue)
  {
    var remaining := lines;
    while true
      invariant IntReply(remaining, defaultValue) == IntReply(lines, defaultValue)
      decreases |remaining|
    {
      var input := ReadLine(remaining);
      if IsCancel(input) {
        return Cancelled, Next(remaining);
      }
      var result := ParseInt(input);
      if result.Some? && !IsBlank(input) {
        return Answered(result.value), Next(remaining);
      } else if defaultValue != NoDefault {
        return Answered(defaultValue), Next(remaining);
      }
      if remaining == [] {
        return Unanswered, [];
      }
      remaining := remaining[1..];
    }
  }

  /** Typing a number gives that number, whatever the default. */
  lemma AskIntReadsNumber(n: int, defaultValue: int, lines: seq<string>)
    requires IsInt32(n)
    ensures IntReply([FormatInt(n)] + lines, defaultValue) == (Answered(n), lines)
  {
    ParseFormatRoundTrip(n);
    assert !IsCancel(FormatInt(n)) by {
      FormatNotCancel(n);
    }
    assert ([FormatInt(n)] + lines)[1..] == lines;
  }

  /** With the -1 sentinel every unparseable line is asked again; with any
      other default it is taken as the default. */
  lemma AskIntDefault(line: string, defaultValue: int)
    requires !IsCancel(line) && ParseInt(line).None?
    ensures IntVerdict(line, defaultValue) == (if defaultValue == NoDefault then Retry else Accept(defaultValue))
  {
  }

  // ---------------------------------------------------------------------------
  // Ask.Bool
  // ---------------------------------------------------------------------------

  /** One line of Ask.Bool: cancellation, then `y`/`n` in any case, then a
      blank line for the default when there is one; anything else, padded
      answers included, is asked again. */
  function BoolVerdict(line: string, defaultValue: Option<bool>): (v: Verdict<bool>)
    ensures v.Cancel? <==> IsCancel(line)
    ensures v == Accept(true) <==> EqualsIgnoreCase(line, "y") || (IsBlank(line) && defaultValue == Some(true))
    ensures v == Accept(false) <==> EqualsIgnoreCase(line, "n") || (IsBlank(line) && defaultValue == Some(false))
  {
    EqualsIgnoreCaseNotBlank(line, CancelWord);
    EqualsIgnoreCaseNotBlank(line, "y");
    EqualsIgnoreCaseNotBlank(line, "n");
    if IsCancel(line) then Cancel
    else if EqualsIgnoreCase(line, "y") then Accept(true)
    else if EqualsIgnoreCase(line, "n") then Accept(false)
    else if Trim(line) == "" && defaultValue.Some? then Accept(defaultValue.value)
    else Retry
  }

  /** What Ask.Bool returns on the input `lines`, and the input left. Only
      the prompt without a default can be left waiting. */
  function BoolReply(lines: seq<string>, defaultValue: Option<bool>): (r: (Answer<bool>, seq<string>))
    ensures Consumes(lines, r.1)
    ensures r.0.Unanswered? ==> r.1 == [] && defaultValue.None?
    decreases |lines|
  {
    var v := BoolVerdict(ReadLine(lines), defaultValue);
    if !v.Retry? then (ToAnswer(v), Next(lines))
    else if lines == [] then
      (Unanswered, [])
    else
      var r := BoolReply(lines[1..], defaultValue);
      ConsumesTail(lines, r.1);
      r
  }

  /** The answer Ask.Bool returns is the default or was typed, as `y` or
      `n` in either case, on one of the lines. */
  lemma {:induction false} BoolReplyFromInput(lines: seq<string>, defaultValue: Option<bool>)
    requires BoolReply(lines, defaultValue).0.Answered?
    ensures var b := BoolReply(lines, defaultValue).0.value;
      defaultValue == Some(b) || exists i :: 0 <= i < |lines| && EqualsIgnoreCase(lines[i], if b then "y" else "n")
    decreases |lines|
  {
    var b := BoolReply(lines, defaultValue).0.value;
    if lines != [] && BoolVerdict(lines[0], defaultValue).Retry? {
      BoolReplyFromInput(lines[1..], defaultValue);
      if defaultValue != Some(b) {
        var i :| 0 <= i < |lines[1..]| && EqualsIgnoreCase(lines[1..][i], if b then "y" else "n");
        assert lines[1..][i] == lines[i + 1];
      }
    }
  }

  /** Ask.Bool(prompt, defaultValue). */
  method AskBool(lines: seq<string>, defaultValue: Option<bool>) returns (answer: Answer<bool>, rest: seq<string>)
    ensures (answer, rest) == BoolReply(lines, defaultValue)
  {
    var remaining := lines;
    while true
      invariant BoolReply(remaining, defaultValue) == BoolReply(lines, defaultValue)
      decreases |remaining|
    {
      var input := ReadLine(remaining);
      if IsCancel(input) {
        return Cancelled, Next(remaining);
      }
      if EqualsIgnoreCase(input, "y") {
        return Answered(true), Next(remaining);
      } else if EqualsIgnoreCase(input, "n") {
        return Answered(false), Next(remaining);
      } else if Trim(input) == "" && defaultValue.Some? {
        return Answered(defaultValue.value), Next(remaining);
      }
      if remaining == [] {
        return Unanswered, [];
      }
      remaining := remaining[1..];
    }
  }

  /** Pressing Enter takes the default: an empty text when emptiness is
      not checked, the default number unless it is -1, the default yes/no
      when there is one. Only that line is consumed. */
  lemma EnterTakesDefault(lines: seq<string>, intDefault: int, boolDefault: bool)
    requires lines != [] && lines[0] == ""
    ensures StringReply(lines, false) == (Answered(""), lines[1..])
    ensures intDefault != NoDefault ==> IntReply(lines, intDefault) == (Answered(intDefault), lines[1..])
    ensures BoolReply(lines, Some(boolDefault)) == (Answered(boolDefault), lines[1..])
  {
    assert Trim("") == "";
  }

  /** A padded ` y` is neither yes nor blank: it is asked again, even when a
      default exists. */
  lemma BoolRejectsPadding(defaultValue: Option<bool>)
    ensures BoolVerdict(" y", defaultValue) == Retry
  {
    assert Trim(" y") != "" by { assert !IsWhiteSpace(" y"[1]); }
  }

  /** The sentinel cancels every prompt, in any letter case, and consumes
      only its own line. */
  lemma CancelWins(line: string, lines: seq<string>, checkEmpty: bool, intDefault: int, boolDefault: Option<bool>)
    requires EqualsIgnoreCase(line, "!CANCEL")
    ensures StringReply([line] + lines, checkEmpty) == (Cancelled, lines)
    ensures IntReply([line] + lines, intDefault) == (Cancelled, lines)
    ensures BoolReply([line] + lines, boolDefault) == (Cancelled, lines)
  {
    assert IsCancel(line) by { CancelWordAnyCase(line); }
    assert ([line] + lines)[0] == line && ([line] + lines)[1..] == lines;
  }
}
