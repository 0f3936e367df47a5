/** The command-line tokenizer of the current revision (`ParseCommandLine`):
    one pass over the characters with an "inside quotes" flag, an "escape
    next character" flag and a buffer for the token being built. */
module CommandLine {
  import opened Strings

  /** The tokenizer's variables between two characters: the finished tokens,
      the token being built, and the two flags. */
  datatype Scanner = Scanner(arguments: seq<string>, current: string, insideQuotes: bool, escapeNextChar: bool)

  /** The variables before the first character. */
  const Initial := Scanner([], "", false, false)

  /** What one character does to the variables. A double quote that is not
      escaped flips the quote flag (the escape flag is always clear there). */
  function Step(st: Scanner, c: char): Scanner
  {
    if st.escapeNextChar then st.(current := st.current + [c], escapeNextChar := false)
    else if c == '\\' then st.(escapeNextChar := true)
    else if c == '"' then st.(insideQuotes := !st.insideQuotes)
    else if c == ' ' && !st.insideQuotes then
      (if st.current != "" then st.(arguments := st.arguments + [st.current], current := "") else st)
    else st.(current := st.current + [c])
  }

  /** The variables after every character of `s`, starting from `st`. */
  function Scan(st: Scanner, s: string): Scanner
    decreases |s|
  {
    if s == [] then st else Scan(Step(st, s[0]), s[1..])
  }

  /** End of input: a non-empty buffer becomes the last token. */
  function Flush(st: Scanner): seq<string>
  {
    if st.current != "" then st.arguments + [st.current] else st.arguments
  }

  /** The token list the tokenizer returns for `input`. */
  function Parse(input: string): seq<string>
  {
    Flush(Scan(Initial, input))
  }

  /** True when `s` uses neither double quotes nor backslashes. */
  predicate Plain(s: string)
  {
    '"' !in s && '\\' !in s
  }

  /** The tokenizer as the source writes it: a loop over the characters that
      updates the flags and the buffer and appends finished tokens. */
  method ParseCommandLine(input: string) returns (arguments: seq<string>)
    ensures arguments == Parse(input)
    ensures forall k :: 0 <= k < |arguments| ==> arguments[k] != ""
    ensures Plain(input) ==> arguments == RemoveEmpty(Split(input, ' '))
  {
    arguments := [];
    var insideQuotes := false;
    var escapeNextChar := false;
    var currentArgument := "";
    for i := 0 to |input|
      invariant Flush(Scan(Scanner(arguments, currentArgument, insideQuotes, escapeNextChar), input[i..])) == Parse(input)
    {
      var c := input[i];
      assert input[i..][1..] == input[i + 1..];
      if escapeNextChar {
        currentArgument := currentArgument + [c];
        escapeNextChar := false;
      } else if c == '\\' {
        escapeNextChar := true;
      } else if c == '"' {
        if insideQuotes && !escapeNextChar {
          insideQuotes := false;
        } else {
          insideQuotes := true;
        }
      } else if c == ' ' && !insideQuotes {
        if currentArgument != "" {
          arguments := arguments + [currentArgument];
          currentArgument := "";
        }
      } else {
        currentArgument := currentArgument + [c];
      }
    }
    if currentArgument != "" {
      arguments := arguments + [currentArgument];
    }
    NoEmptyTokens(input);
    if Plain(input) {
      PlainSplitsOnSpaces(input);
    }
  }

  /** Scanning `a + b` is scanning `a`, then `b`. */
  lemma {:induction false} ScanAppend(st: Scanner, a: string, b: string)
    ensures Scan(st, a + b) == Scan(Scan(st, a), b)
    decreases |a|
  {
    if a == [] {
      assert a + b == b;
    } else {
      assert (a + b)[0] == a[0] && (a + b)[1..] == a[1..] + b;
      ScanAppend(Step(st, a[0]), a[1..], b);
    }
  }

  /** Scanning never stores an empty token. */
  lemma {:induction false} ScanKeepsTokensNonEmpty(st: Scanner, s: string)
    requires forall k :: 0 <= k < |st.arguments| ==> st.arguments[k] != ""
    ensures forall k :: 0 <= k < |Scan(st, s).arguments| ==> Scan(st, s).arguments[k] != ""
    decreases |s|
  {
    if s != [] {
      ScanKeepsTokensNonEmpty(Step(st, s[0]), s[1..]);
    }
  }

  /** The tokenizer never returns an empty token. */
  lemma NoEmptyTokens(input: string)
    ensures forall k :: 0 <= k < |Parse(input)| ==> Parse(input)[k] != ""
  {
    ScanKeepsTokensNonEmpty(Initial, input);
  }

  /** Generalisation of `PlainSplitsOnSpaces` to any point outside quotes and
      escapes: the buffer is glued to the first space-separated piece. */
  lemma {:induction false} ScanPlain(st: Scanner, s: string)
    requires !st.insideQuotes && !st.escapeNextChar
    requires Plain(s)
    ensures Flush(Scan(st, s))
         == st.arguments + RemoveEmpty([st.current + Split(s, ' ')[0]] + Split(s, ' ')[1..])
    decreases |s|
  {
    if s == [] {
      assert st.current + "" == st.current;
    } else {
      assert Plain(s[1..]) by {
        assert forall c :: c in s[1..] ==> c in s;
      }
      ScanPlain(Step(st, s[0]), s[1..]);
      if s[0] == ' ' {
        var rest := Split(s[1..], ' ');
        assert Step(st, ' ').current == "";
        assert "" + rest[0] == rest[0] && [rest[0]] + rest[1..] == rest;
        ScanPlainSpace(st, s);
      } else {
        var rest := Split(s[1..], ' ');
        assert s[0] in s;
        assert Split(s, ' ') == [[s[0]] + rest[0]] + rest[1..];
        assert Step(st, s[0]).current + rest[0] == st.current + ([s[0]] + rest[0]);
      }
    }
  }

  /** The step of `ScanPlain` at a space: the buffer, if not empty, is
      finished, which is what dropping an empty piece leaves. */
  lemma ScanPlainSpace(st: Scanner, s: string)
    requires !st.insideQuotes && !st.escapeNextChar
    requires s != [] && s[0] == ' '
    requires Flush(Scan(Step(st, ' '), s[1..])) == Step(st, ' ').arguments + RemoveEmpty(Split(s[1..], ' '))
    ensures Flush(Scan(st, s))
         == st.arguments + RemoveEmpty([st.current + Split(s, ' ')[0]] + Split(s, ' ')[1..])
  {
    SpaceFinishesToken(st);
    assert Scan(st, s) == Scan(Step(st, ' '), s[1..]);
    PiecesAtSpace(st.current, s);
    ConcatAssoc(st.arguments, RemoveEmpty([st.current]), RemoveEmpty(Split(s[1..], ' ')));
  }

  /** Concatenation is associative. Kept apart: stated inline, this fact
      makes the proof above too expensive for the solver. */
  lemma ConcatAssoc(a: seq<string>, b: seq<string>, c: seq<string>)
    ensures (a + b) + c == a + (b + c)
  {
  }

  /** A space outside quotes moves the buffer, unless empty, to the tokens.
      Kept apart for the same reason as `ConcatAssoc`. */
  lemma SpaceFinishesToken(st: Scanner)
    requires !st.insideQuotes && !st.escapeNextChar
    ensures Step(st, ' ').arguments == st.arguments + RemoveEmpty([st.current])
  {
    assert RemoveEmpty([st.current]) == (if st.current == "" then [] else [st.current]) + RemoveEmpty([]);
  }

  /** At a space, the buffer forms a piece of its own. */
  lemma PiecesAtSpace(current: string, s: string)
    requires s != [] && s[0] == ' '
    ensures RemoveEmpty([current + Split(s, ' ')[0]] + Split(s, ' ')[1..])
         == RemoveEmpty([current]) + RemoveEmpty(Split(s[1..], ' '))
  {
    var rest := Split(s[1..], ' ');
    assert Split(s, ' ') == [""] + rest;
    assert current + "" == current;
    assert [current + Split(s, ' ')[0]] + Split(s, ' ')[1..] == [current] + rest;
    RemoveEmptyAppend([current], rest);
  }

  /** For input without quotes and backslashes the tokens are exactly the
      maximal runs of non-space characters, in order: the space-separated
      pieces with the empty ones dropped. */
  lemma PlainSplitsOnSpaces(input: string)
    requires Plain(input)
    ensures Parse(input) == RemoveEmpty(Split(input, ' '))
  {
    var pieces := Split(input, ' ');
    ScanPlain(Initial, input);
    assert "" + pieces[0] == pieces[0];
    assert pieces == [pieces[0]] + pieces[1..];
  }

  /** Input made only of spaces gives no tokens. */
  lemma {:induction false} BlankGivesNoTokens(input: string)
    requires forall k :: 0 <= k < |input| ==> input[k] == ' '
    ensures Parse(input) == []
  {
    ScanBlank(Initial, input);
  }

  lemma {:induction false} ScanBlank(st: Scanner, s: string)
    requires st == Initial
    requires forall k :: 0 <= k < |s| ==> s[k] == ' '
    ensures Scan(st, s) == Initial
    decreases |s|
  {
    if s != [] {
      ScanBlank(Step(st, s[0]), s[1..]);
    }
  }

  /** Input made only of double quotes (such as `""`) gives no tokens. */
  lemma {:induction false} QuotesOnlyGiveNoTokens(input: string)
    requires forall k :: 0 <= k < |input| ==> input[k] == '"'
    ensures Parse(input) == []
  {
    ScanQuotes(Initial, input);
  }

  lemma {:induction false} ScanQuotes(st: Scanner, s: string)
    requires st.arguments == [] && st.current == "" && !st.escapeNextChar
    requires forall k :: 0 <= k < |s| ==> s[k] == '"'
    ensures Scan(st, s).arguments == [] && Scan(st, s).current == ""
    decreases |s|
  {
    if s != [] {
      ScanQuotes(Step(st, s[0]), s[1..]);
    }
  }

  /** `w` with a backslash in front of every character. */
  function EscapeAll(w: string): (r: string)
    ensures |r| == 2 * |w|
  {
    if w == [] then [] else ['\\', w[0]] + EscapeAll(w[1..])
  }

  /** Each escaped character is appended to the buffer literally, whatever
      it is (space, double quote, backslash), and no flag changes. */
  lemma {:induction false} ScanEscaped(st: Scanner, w: string)
    requires !st.escapeNextChar
    ensures Scan(st, EscapeAll(w)) == st.(current := st.current + w)
    decreases |w|
  {
    if w == [] {
      assert st.current + w == st.current;
    } else {
      var e := EscapeAll(w);
      assert e[0] == '\\' && e[1..][0] == w[0] && e[1..][1..] == EscapeAll(w[1..]);
      var mid := Step(Step(st, '\\'), w[0]);
      ScanEscaped(mid, w[1..]);
      assert mid.current + w[1..] == st.current + w;
    }
  }

  /** A command line built from a list of non-empty arguments: each one fully
      escaped, separated by single spaces. */
  function Quote(args: seq<string>): string
  {
    if args == [] then ""
    else if |args| == 1 then EscapeAll(args[0])
    else EscapeAll(args[0]) + " " + Quote(args[1..])
  }

  lemma {:induction false} ScanQuoted(acc: seq<string>, args: seq<string>)
    requires |args| >= 1
    requires forall k :: 0 <= k < |args| ==> args[k] != ""
    ensures Flush(Scan(Scanner(acc, "", false, false), Quote(args))) == acc + args
    decreases |args|
  {
    var st := Scanner(acc, "", false, false);
    ScanEscaped(st, args[0]);
    assert "" + args[0] == args[0];
    if |args| == 1 {
      assert args == [args[0]];
    } else {
      ScanAppend(st, EscapeAll(args[0]), " " + Quote(args[1..]));
      assert Quote(args) == EscapeAll(args[0]) + (" " + Quote(args[1..]));
      ScanQuoted(acc + [args[0]], args[1..]);
      assert (" " + Quote(args[1..]))[0] == ' ' && (" " + Quote(args[1..]))[1..] == Quote(args[1..]);
      assert acc + [args[0]] + args[1..] == acc + args;
    }
  }

  /** Round trip: the tokenizer recovers any list of non-empty arguments from
      its escaped, space-separated form. */
  lemma ParseQuote(args: seq<string>)
    requires forall k :: 0 <= k < |args| ==> args[k] != ""
    ensures Parse(Quote(args)) == args
  {
    if args != [] {
      ScanQuoted([], args);
    }
  }

  /** Inside quotes, characters other than `"` and `\` (spaces included) are
      appended to the buffer. */
  lemma {:induction false} ScanInsideQuotes(st: Scanner, w: string)
    requires st.insideQuotes && !st.escapeNextChar
    requires Plain(w)
    ensures Scan(st, w) == st.(current := st.current + w)
    decreases |w|
  {
    if w == [] {
      assert st.current + w == st.current;
    } else {
      assert w[0] in w;
      assert Plain(w[1..]) by {
        assert forall c :: c in w[1..] ==> c in w;
      }
      ScanInsideQuotes(Step(st, w[0]), w[1..]);
      assert st.current + [w[0]] + w[1..] == st.current + w;
    }
  }

  /** A quoted segment is one token with its spaces kept, and the quotes are
      dropped; a missing closing quote is no error, the buffer is still
      flushed at the end. */
  lemma QuotedSegmentIsOneToken(w: string)
    requires w != "" && Plain(w)
    ensures Parse("\"" + w + "\"") == [w]
    ensures Parse("\"" + w) == [w]
  {
    var open := Step(Initial, '"');
    assert Scan(Initial, "\"") == open;
    ScanInsideQuotes(open, w);
    assert "" + w == w;
    ScanAppend(Initial, "\"", w);
    ScanAppend(Initial, "\"" + w, "\"");
    assert Scan(Scan(Initial, "\"" + w), "\"") == Step(Scan(Initial, "\"" + w), '"');
  }

  /** Finished tokens already stored are carried through a scan unchanged,
      ahead of whatever the scan stores. */
  lemma {:induction false} ScanKeepsStoredTokens(st: Scanner, a: seq<string>, s: string)
    ensures Scan(st.(arguments := a + st.arguments), s) == Scan(st, s).(arguments := a + Scan(st, s).arguments)
    decreases |s|
  {
    if s != [] {
      var next := Step(st, s[0]);
      assert Step(st.(arguments := a + st.arguments), s[0]) == next.(arguments := a + next.arguments);
      ScanKeepsStoredTokens(next, a, s[1..]);
    }
  }

  /** A closed quoted segment followed by a space is one token ahead of the
      tokens of the rest of the line. */
  lemma QuotedSegmentThenRest(w: string, rest: string)
    requires w != "" && Plain(w)
    ensures Parse("\"" + w + "\" " + rest) == [w] + Parse(rest)
  {
    var open := Step(Initial, '"');
    ScanInsideQuotes(open, w);
    assert "" + w == w;
    var segment := "\"" + w + "\" ";
    assert segment == "\"" + (w + "\" ");
    ScanAppend(Initial, "\"", w + "\" ");
    assert Scan(Initial, "\"") == open;
    ScanAppend(open, w, "\" ");
    assert Scan(open.(current := w), "\" ") == Initial.(arguments := [w] + Initial.arguments);
    ScanAppend(Initial, segment, rest);
    ScanKeepsStoredTokens(Initial, [w], rest);
    var after := Scan(Initial, rest);
    if after.current != "" {
      assert ([w] + after.arguments) + [after.current] == [w] + (after.arguments + [after.current]);
    }
  }

  /** A lone backslash at the very end is dropped without effect. */
  lemma TrailingBackslashDropped(input: string)
    requires !Scan(Initial, input).escapeNextChar
    ensures Parse(input + "\\") == Parse(input)
  {
    ScanAppend(Initial, input, "\\");
    assert Scan(Scan(Initial, input), "\\") == Step(Scan(Initial, input), '\\');
  }

  /** Without backslashes, no token ever contains a double quote: every `"`
      only switches the quote flag. */
  lemma {:induction false} ScanDropsQuotes(st: Scanner, s: string)
    requires !st.escapeNextChar && '\\' !in s
    requires '"' !in st.current
    requires forall k :: 0 <= k < |st.arguments| ==> '"' !in st.arguments[k]
    ensures !Scan(st, s).escapeNextChar && '"' !in Scan(st, s).current
    ensures forall k :: 0 <= k < |Scan(st, s).arguments| ==> '"' !in Scan(st, s).arguments[k]
    decreases |s|
  {
    if s != [] {
      assert s[0] in s;
      assert '\\' !in s[1..] by {
        assert forall c :: c in s[1..] ==> c in s;
      }
      ScanDropsQuotes(Step(st, s[0]), s[1..]);
    }
  }

  lemma QuotesNeverInTokens(input: string)
    requires '\\' !in input
    ensures forall k :: 0 <= k < |Parse(input)| ==> '"' !in Parse(input)[k]
  {
    ScanDropsQuotes(Initial, input);
  }
}
