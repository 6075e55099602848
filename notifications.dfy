/**
 * Notification texts and the quoting applied before a notification is
 * handed to the operating system (src/core/notifications.py). Delivery
 * itself (PowerShell, osascript, notify-send) is not part of this model.
 */
module Notifications {
  import opened Text
  import Formatting

  /** The (title, message) pair that send_notification receives. */
  datatype Notification = Notification(title: string, message: string)

  const HourlyTitle: string := "TaskPomodoro - Work Update"
  const HourlyLead: string := "You have been working for "
  const HourlyTail: string := "! Keep it up!"
  const SessionTitle: string := "TaskPomodoro - Great Work!"
  const SessionLead: string := "You completed a "
  const SessionTail: string := " minute work session. Time for a break!"

  // ---------------------------------------------------------------------
  // NotificationMessages
  // ---------------------------------------------------------------------

  /** NotificationMessages.hourly_update: "hour" for one, "hours" otherwise. */
  function HourlyUpdate(hours: int): Notification {
    var hoursText := if hours == 1 then "hour" else "hours";
    Notification(HourlyTitle, HourlyLead + IntToString(hours) + " " + hoursText + HourlyTail)
  }

  /** NotificationMessages.rest_complete: one fixed pair, never mistaken for an hourly update. */
  function RestComplete(): (n: Notification)
    ensures forall hours :: n != HourlyUpdate(hours)
  {
    Notification("TaskPomodoro - Rest Complete!", "Your rest time is over. Time to get back to work!")
  }

  /** NotificationMessages.work_session_complete. */
  function WorkSessionComplete(minutes: int): Notification {
    Notification(SessionTitle, SessionLead + IntToString(minutes) + SessionTail)
  }

  /** Reads the hour count back out of an hourly message; None for any other text. */
  function ParseHourlyMessage(m: string): Option<int> {
    if |HourlyLead| + |HourlyTail| <= |m| && m[..|HourlyLead|] == HourlyLead && EndsWith(m, HourlyTail) then
      Formatting.ParseHoursText(m[|HourlyLead|..|m| - |HourlyTail|])
    else
      None
  }

  /** The hourly message is the phrase of format_hours_text between a fixed lead and tail. */
  lemma HourlyMessageUsesHoursText(hours: int)
    ensures HourlyUpdate(hours).message == HourlyLead + Formatting.FormatHoursText(hours) + HourlyTail
  {
    Formatting.HoursTextIsFString(hours);
    var t, hoursText := IntToString(hours), if hours == 1 then "hour" else "hours";
    Concat5(HourlyLead, t, " ", hoursText, HourlyTail);
  }

  lemma Concat5(a: string, b: string, c: string, d: string, e: string)
    ensures a + b + c + d + e == a + (b + (c + d)) + e
  {
  }

  /**
   * An hourly update always carries the work-update title, names its hour
   * count, and says "hours" for every count but one.
   */
  lemma HourlyUpdateNamesHours(hours: int)
    ensures HourlyUpdate(hours).title == HourlyTitle
    ensures ParseHourlyMessage(HourlyUpdate(hours).message) == Some(hours)
    ensures EndsWith(Formatting.FormatHoursText(hours), " hours") <==> hours != 1
    ensures EndsWith(HourlyUpdate(hours).message, " hours" + HourlyTail) <==> hours != 1
  {
    var phrase := Formatting.FormatHoursText(hours);
    HourlyMessageUsesHoursText(hours);
    var m := HourlyLead + phrase + HourlyTail;
    assert m[..|HourlyLead|] == HourlyLead;
    assert m[|m| - |HourlyTail|..] == HourlyTail;
    assert m[|HourlyLead|..|m| - |HourlyTail|] == phrase;
    Formatting.HoursTextRoundTrip(hours);
    Formatting.HoursTextIsFString(hours);
    EndsWithBeforeTail(HourlyLead, phrase, HourlyTail, " hours");
  }

  /** A suffix no longer than the middle part ends `a + p + t` together with `t` exactly when it ends `p`. */
  lemma EndsWithBeforeTail(a: string, p: string, t: string, w: string)
    requires |w| <= |p|
    ensures EndsWith(a + p + t, w + t) <==> EndsWith(p, w)
  {
    var m := a + p + t;
    assert m[|m| - |w + t|..] == p[|p| - |w|..] + t;
    if EndsWith(m, w + t) {
      assert p[|p| - |w|..] == (p[|p| - |w|..] + t)[..|w|];
    }
  }

  /** Reads the minute count back out of a work-session message; None for any other text. */
  function ParseSessionMessage(m: string): Option<int> {
    if |SessionLead| + |SessionTail| <= |m| && m[..|SessionLead|] == SessionLead && EndsWith(m, SessionTail) then
      ParseInt(m[|SessionLead|..|m| - |SessionTail|])
    else
      None
  }

  /** The work-session message carries the decimal of its minute count, under a fixed title. */
  lemma WorkSessionNamesMinutes(minutes: int)
    ensures WorkSessionComplete(minutes).title == SessionTitle
    ensures ParseSessionMessage(WorkSessionComplete(minutes).message) == Some(minutes)
  {
    var digits := IntToString(minutes);
    var m := SessionLead + digits + SessionTail;
    assert m[..|SessionLead|] == SessionLead;
    assert m[|m| - |SessionTail|..] == SessionTail;
    assert m[|SessionLead|..|m| - |SessionTail|] == digits;
    IntToStringRoundTrip(minutes);
  }

  // ---------------------------------------------------------------------
  // Quoting for PowerShell (_send_windows_notification)
  // ---------------------------------------------------------------------

  /** Two chained replacements: every `'` doubled, then every `"` preceded by a backtick. */
  function EscapeWindows(s: string): string {
    Replace(Replace(s, '\'', "''"), '"', "`\"")
  }

  /** What the Windows quoting does to one character. */
  function WindowsCharEscape(c: char): string {
    if c == '\'' then "''" else if c == '"' then "`\"" else [c]
  }

  /**
   * The two chained replacements act character by character: every `'`
   * doubled, every `"` preceded by a backtick, every other character kept,
   * all in their original order.
   */
  lemma {:induction false} EscapeWindowsPerChar(s: string)
    ensures s == [] ==> EscapeWindows(s) == []
    ensures s != [] ==> EscapeWindows(s) == WindowsCharEscape(s[0]) + EscapeWindows(s[1..])
  {
    if s != [] {
      var head := if s[0] == '\'' then "''" else [s[0]];
      assert Replace(s, '\'', "''") == head + Replace(s[1..], '\'', "''");
      ReplaceAppend(head, Replace(s[1..], '\'', "''"), '"', "`\"");
      if s[0] == '\'' {
        assert Replace(head, '"', "`\"") == "''" by { ReplaceAbsent(head, '"', "`\""); }
      } else {
        assert Replace(head, '"', "`\"") == WindowsCharEscape(s[0]) by {
          assert head[1..] == [];
        }
      }
    }
  }

  /** Reads PowerShell-quoted text back: `''` is `'`, `` `" `` is `"`. */
  function UnescapeWindows(s: string): string
    decreases |s|
  {
    if s == [] then []
    else if 2 <= |s| && s[0] == '\'' && s[1] == '\'' then "'" + UnescapeWindows(s[2..])
    else if 2 <= |s| && s[0] == '`' && s[1] == '"' then "\"" + UnescapeWindows(s[2..])
    else [s[0]] + UnescapeWindows(s[1..])
  }

  /** The Windows quoting loses nothing: it can be undone exactly. */
  lemma {:induction false} EscapeWindowsRoundTrip(s: string)
    ensures UnescapeWindows(EscapeWindows(s)) == s
    decreases |s|
  {
    if s != [] {
      EscapeWindowsPerChar(s);
      var rest := EscapeWindows(s[1..]);
      EscapeWindowsRoundTrip(s[1..]);
      EscapeWindowsNoLeadingQuote(s[1..]);
      var e := WindowsCharEscape(s[0]) + rest;
      if s[0] == '\'' || s[0] == '"' {
        assert e[2..] == rest;
      } else {
        assert e[1..] == rest;
      }
    }
  }

  /** Quoted text never starts with a bare `"`. */
  lemma EscapeWindowsNoLeadingQuote(s: string)
    ensures EscapeWindows(s) == [] || EscapeWindows(s)[0] != '"'
  {
    EscapeWindowsPerChar(s);
  }

  /** The characters PowerShell takes for a double quote: `"` and the curly quotes U+201C, U+201D and U+201E. */
  predicate IsPowerShellQuote(c: char) {
    c == '"' || c == '\U{201C}' || c == '\U{201D}' || c == '\U{201E}'
  }

  /**
   * The text PowerShell reads from the characters between the two quotes
   * of a double-quoted string literal. Two double quotes in a row (curly
   * ones included) stand for the second of them, and a backtick before a
   * double quote, a backtick, `$` or `'` stands for that character; every
   * other character, `'` included, stands for itself. A lone double quote
   * ends the literal early (None). Every `$` reads as None: it may start a
   * variable reference, and the cases where PowerShell keeps it literal
   * (before a space, at the end) are not distinguished. Backtick sequences
   * that stand for control characters, and a trailing lone backtick, are
   * outside this model (None).
   */
  function PowerShellText(body: string): Option<string>
    decreases |body|
  {
    if body == [] then Some([])
    else if IsPowerShellQuote(body[0]) then
      if 2 <= |body| && IsPowerShellQuote(body[1]) then Prepend(body[1], PowerShellText(body[2..])) else None
    else if body[0] == '$' then None
    else if body[0] == '`' then
      if 2 <= |body| && (IsPowerShellQuote(body[1]) || body[1] in "`$'") then Prepend(body[1], PowerShellText(body[2..]))
      else None
    else Prepend(body[0], PowerShellText(body[1..]))
  }

  function Prepend(c: char, t: Option<string>): Option<string> {
    match t
    case Some(u) => Some([c] + u)
    case None => None
  }

  /** A text with no double quote, `$` or backtick reads back as itself. */
  lemma {:induction false} PowerShellPlainText(s: string)
    requires forall i :: 0 <= i < |s| ==> !IsPowerShellQuote(s[i]) && s[i] != '$' && s[i] != '`'
    ensures PowerShellText(s) == Some(s)
    decreases |s|
  {
    if s != [] {
      PowerShellPlainText(s[1..]);
      assert [s[0]] + s[1..] == s;
    }
  }

  /**
   * As written, the quoting doubles `'` although the text is placed in a
   * double-quoted literal, where `''` is two apostrophes: "It's" is shown
   * as "It''s".
   */
  lemma EscapeWindowsShowsDoubledApostrophe()
    ensures EscapeWindows("It's") == "It''s"
    ensures PowerShellText(EscapeWindows("It's")) == Some("It''s")
  {
    EscapeWindowsFourChars('I', 't', '\'', 's');
    PowerShellPlainText("It''s");
  }

  /** As written, a `$` is not quoted at all, and PowerShell may take it as the start of a variable reference. */
  lemma EscapeWindowsLeavesDollar()
    ensures EscapeWindows("$5") == "$5"
    ensures PowerShellText(EscapeWindows("$5")) == None
  {
    var d := "$5";
    assert d[1..] == "5" && d[1..][1..] == [];
  }

  /** The Windows quoting of a nonempty text, from the quoting of its tail. */
  lemma EscapeWindowsStep(t: string, r: string)
    requires t != [] && EscapeWindows(t[1..]) == r
    ensures EscapeWindows(t) == WindowsCharEscape(t[0]) + r
  {
    EscapeWindowsPerChar(t);
  }

  /** Four characters with one apostrophe, third, and no double quote: only the apostrophe is doubled. */
  lemma EscapeWindowsFourChars(a: char, b: char, c: char, d: char)
    requires a != '\'' && a != '"' && b != '\'' && b != '"' && c == '\'' && d != '\'' && d != '"'
    ensures EscapeWindows([a, b, c, d]) == [a, b, '\'', '\'', d]
  {
    var s := [a, b, c, d];
    EscapeWindowsPerChar(s[4..]);
    EscapeWindowsStep(s[3..], []);
    EscapeWindowsStep(s[2..], [d]);
    EscapeWindowsStep(s[1..], ['\'', '\'', d]);
    EscapeWindowsStep(s, [b, '\'', '\'', d]);
  }

  /**
   * As written, a typographic double quote is passed through unquoted, and
   * PowerShell takes it as the end of the literal.
   */
  lemma EscapeWindowsEndsAtTypographicQuote()
    ensures EscapeWindows("a\U{201C}b") == "a\U{201C}b"
    ensures PowerShellText(EscapeWindows("a\U{201C}b")) == None
  {
    var q := "a\U{201C}b";
    assert q[1..] == "\U{201C}b" && q[1..][1..] == "b" && q[1..][1..][1..] == [];
  }

  /**
   * The PowerShell quoting for a double-quoted literal, character by
   * character: a backtick before every backtick, `$` and double quote,
   * curly ones included; every other character kept.
   */
  function EscapeWindowsFixed(s: string): string
    decreases |s|
  {
    if s == [] then [] else WindowsCharEscapeFixed(s[0]) + EscapeWindowsFixed(s[1..])
  }

  function WindowsCharEscapeFixed(c: char): string {
    if c == '`' || c == '$' || IsPowerShellQuote(c) then ['`', c] else [c]
  }

  /** With backticks, dollars and every kind of double quote quoted, PowerShell reads every text back exactly. */
  lemma {:induction false} EscapeWindowsFixedRoundTrip(s: string)
    ensures PowerShellText(EscapeWindowsFixed(s)) == Some(s)
    decreases |s|
  {
    if s != [] {
      var rest := EscapeWindowsFixed(s[1..]);
      EscapeWindowsFixedRoundTrip(s[1..]);
      var e := WindowsCharEscapeFixed(s[0]) + rest;
      if s[0] == '`' || s[0] == '$' || IsPowerShellQuote(s[0]) {
        assert e[0] == '`' && e[1] == s[0] && e[2..] == rest;
      } else {
        assert e[0] == s[0] && e[1..] == rest;
      }
      assert s == [s[0]] + s[1..];
    }
  }

  // ---------------------------------------------------------------------
  // Quoting for AppleScript (_send_macos_notification)
  // ---------------------------------------------------------------------

  /** One replacement: every `"` gets a backslash in front. */
  function EscapeMacos(s: string): string {
    Replace(s, '"', "\\\"")
  }

  /** The quoting adds one character per `"` and nothing else. */
  lemma EscapeMacosLength(s: string)
    ensures |EscapeMacos(s)| == |s| + Count(s, '"')
  {
    ReplaceLength(s, '"', "\\\"");
  }

  /** Reads the quoting back: a backslash followed by `"` is a `"`. */
  function UnescapeMacos(s: string): string
    decreases |s|
  {
    if s == [] then []
    else if 2 <= |s| && s[0] == '\\' && s[1] == '"' then "\"" + UnescapeMacos(s[2..])
    else [s[0]] + UnescapeMacos(s[1..])
  }

  /** The macOS quoting can be undone exactly. */
  lemma {:induction false} EscapeMacosRoundTrip(s: string)
    ensures UnescapeMacos(EscapeMacos(s)) == s
    decreases |s|
  {
    if s != [] {
      var rest := EscapeMacos(s[1..]);
      EscapeMacosRoundTrip(s[1..]);
      assert rest == [] || rest[0] != '"';
      if s[0] == '"' {
        assert (EscapeMacos(s))[2..] == rest;
      } else {
        assert (EscapeMacos(s))[1..] == rest;
      }
    }
  }

  /**
   * The text AppleScript reads from the characters between the two quotes
   * of a string literal: `\"` is a quote and `\\` a backslash. A bare `"`
   * would end the literal early and a final lone backslash would escape
   * the closing quote; both leave the literal malformed (None). Other
   * escape sequences are outside this model (None).
   */
  function AppleScriptText(body: string): Option<string>
    decreases |body|
  {
    if body == [] then Some([])
    else if body[0] == '"' then None
    else if body[0] == '\\' then
      if 2 <= |body| && (body[1] == '"' || body[1] == '\\') then
        match AppleScriptText(body[2..])
        case Some(t) => Some([body[1]] + t)
        case None => None
      else None
    else
      match AppleScriptText(body[1..])
      case Some(t) => Some([body[0]] + t)
      case None => None
  }

  /**
   * As written, a backslash in a title or message is not quoted: "C:\"
   * comes out unchanged, and between the quotes of the AppleScript
   * literal its final backslash escapes the closing quote.
   */
  lemma EscapeMacosBreaksOnBackslash()
    ensures EscapeMacos("C:\\") == "C:\\"
    ensures AppleScriptText(EscapeMacos("C:\\")) == None
  {
    var s := "C:\\";
    assert s[1..] == ":\\" && s[1..][1..] == "\\" && s[1..][1..][1..] == [];
    assert AppleScriptText("\\") == None;
  }

  /** The AppleScript quoting with backslashes quoted first. */
  function EscapeMacosFixed(s: string): string {
    Replace(Replace(s, '\\', "\\\\"), '"', "\\\"")
  }

  function MacosCharEscapeFixed(c: char): string {
    if c == '\\' then "\\\\" else if c == '"' then "\\\"" else [c]
  }

  lemma {:induction false} EscapeMacosFixedPerChar(s: string)
    ensures s == [] ==> EscapeMacosFixed(s) == []
    ensures s != [] ==> EscapeMacosFixed(s) == MacosCharEscapeFixed(s[0]) + EscapeMacosFixed(s[1..])
  {
    if s != [] {
      var head := if s[0] == '\\' then "\\\\" else [s[0]];
      assert Replace(s, '\\', "\\\\") == head + Replace(s[1..], '\\', "\\\\");
      ReplaceAppend(head, Replace(s[1..], '\\', "\\\\"), '"', "\\\"");
      if s[0] == '\\' {
        ReplaceAbsent(head, '"', "\\\"");
      } else {
        assert head[1..] == [];
      }
    }
  }

  /** With backslashes quoted too, AppleScript reads every text back exactly. */
  lemma {:induction false} EscapeMacosFixedRoundTrip(s: string)
    ensures AppleScriptText(EscapeMacosFixed(s)) == Some(s)
    decreases |s|
  {
    if s != [] {
      EscapeMacosFixedPerChar(s);
      var rest := EscapeMacosFixed(s[1..]);
      EscapeMacosFixedRoundTrip(s[1..]);
      var e := MacosCharEscapeFixed(s[0]) + rest;
      if s[0] == '\\' || s[0] == '"' {
        assert e[2..] == rest;
      } else {
        assert e[0] == s[0] && e[1..] == rest;
      }
      assert s == [s[0]] + s[1..];
    }
  }
}
