// The interactive shell: the quote-aware tokenizer of `parse_command_args`
// and the classification of special inputs in `run`.
module Interactive {
  import opened Wrappers
  import opened Text

  // ----- Tokenizer -----

  /** The tokenizer's variables between two characters. */
  datatype Tokenizer = Tokenizer(args: seq<string>, current: string, inQuotes: bool, escapeNext: bool)

  const Start := Tokenizer([], "", false, false)

  const UnclosedQuote := "Unclosed quote in command"

  /** One pass of the loop body: what reading `ch` does to the variables. */
  function Feed(t: Tokenizer, ch: char): Tokenizer {
    if t.escapeNext then t.(current := t.current + [ch], escapeNext := false)
    else if ch == '\\' && t.inQuotes then t.(current := t.current + [ch], escapeNext := true)
    else if ch == '"' then t.(inQuotes := !t.inQuotes)
    else if ch == ' ' && !t.inQuotes then
      if t.current != [] then t.(args := t.args + [t.current], current := []) else t
    else t.(current := t.current + [ch])
  }

  /** The variables after reading all of `s`. */
  function FeedAll(t: Tokenizer, s: string): Tokenizer
    decreases |s|
  {
    if s == [] then t else FeedAll(Feed(t, s[0]), s[1..])
  }

  /** The arguments once the argument being built, if any, is pushed. */
  function Flush(t: Tokenizer): seq<string> {
    if t.current != [] then t.args + [t.current] else t.args
  }

  /** What `parse_command_args` returns for `input`. */
  function ParseArgs(input: string): Result<seq<string>, string> {
    var t := FeedAll(Start, input);
    if t.inQuotes then Failure(UnclosedQuote) else Success(Flush(t))
  }

  /** `parse_command_args`: one pass over the characters, then the last argument and the quote check. */
  method ParseCommandArgs(input: string) returns (r: Result<seq<string>, string>)
    ensures r == ParseArgs(input)
  {
    var args: seq<string> := [];
    var current: string := "";
    var inQuotes := false;
    var escapeNext := false;
    for i := 0 to |input|
      invariant FeedAll(Tokenizer(args, current, inQuotes, escapeNext), input[i..]) == FeedAll(Start, input)
    {
      var ch := input[i];
      assert input[i..] == [ch] + input[i + 1..];
      if escapeNext {
        current := current + [ch];
        escapeNext := false;
      } else if ch == '\\' && inQuotes {
        escapeNext := true;
        current := current + [ch];
      } else if ch == '"' {
        inQuotes := !inQuotes;
      } else if ch == ' ' && !inQuotes {
        if current != [] {
          args := args + [current];
          current := "";
        }
      } else {
        current := current + [ch];
      }
    }
    assert input[|input|..] == [];
    if current != [] {
      args := args + [current];
    }
    if inQuotes {
      return Failure(UnclosedQuote);
    }
    return Success(args);
  }

  /** Reading `a + b` is reading `a`, then `b`. */
  lemma {:induction false} FeedAllAppend(t: Tokenizer, a: string, b: string)
    ensures FeedAll(t, a + b) == FeedAll(FeedAll(t, a), b)
    decreases |a|
  {
    if a == [] {
      assert a + b == b;
    } else {
      assert (a + b)[1..] == a[1..] + b;
      FeedAllAppend(Feed(t, a[0]), a[1..], b);
    }
  }

  // ----- No empty argument -----

  predicate NoEmptyArgs(t: Tokenizer) {
    forall i | 0 <= i < |t.args| :: t.args[i] != []
  }

  lemma {:induction false} FeedAllNoEmpty(t: Tokenizer, s: string)
    requires NoEmptyArgs(t)
    ensures NoEmptyArgs(FeedAll(t, s))
    decreases |s|
  {
    if s != [] {
      FeedAllNoEmpty(Feed(t, s[0]), s[1..]);
    }
  }

  /** No argument returned is empty, however many spaces separate them. */
  lemma ArgsNonEmpty(input: string)
    ensures ParseArgs(input).Success? ==> forall i | 0 <= i < |ParseArgs(input).value| :: ParseArgs(input).value[i] != []
  {
    FeedAllNoEmpty(Start, input);
  }

  // ----- Without quotes: split on ' ' -----

  /** The non-empty pieces, in order. */
  function NonEmptyPieces(pieces: seq<string>): (r: seq<string>)
    ensures forall i | 0 <= i < |r| :: r[i] != []
  {
    if pieces == [] then []
    else (if pieces[0] != [] then [pieces[0]] else []) + NonEmptyPieces(pieces[1..])
  }

  /** The first of several pieces. */
  lemma NonEmptyPiecesCons(p: string, rest: seq<string>)
    ensures NonEmptyPieces([p] + rest) == (if p != [] then [p] else []) + NonEmptyPieces(rest)
  {
    assert ([p] + rest)[1..] == rest;
  }

  /** A string without the separator is one piece. */
  lemma SplitWhole(s: string, sep: char)
    requires sep !in s
    ensures Split(s, sep) == [s]
  {
    FindCharAbsent(s, sep);
  }

  /** Outside quotes, reading text without '"' splits the pending argument and the text at each ' '. */
  lemma {:induction false} FeedAllUnquoted(t: Tokenizer, s: string)
    requires !t.inQuotes && !t.escapeNext && ' ' !in t.current && '"' !in s
    ensures !FeedAll(t, s).inQuotes && !FeedAll(t, s).escapeNext
    ensures Flush(FeedAll(t, s)) == t.args + NonEmptyPieces(Split(t.current + s, ' '))
    decreases |s|
  {
    if s == [] {
      assert t.current + s == t.current;
      FlushUnquoted(t);
    } else {
      FeedAllUnquoted(Feed(t, s[0]), s[1..]);
      if s[0] == ' ' {
        SpaceUnquoted(t, s);
      } else {
        CharUnquoted(t, s);
      }
    }
  }

  /** At the end of the text, the pending argument is the one piece left. */
  lemma FlushUnquoted(t: Tokenizer)
    requires ' ' !in t.current
    ensures Flush(t) == t.args + NonEmptyPieces(Split(t.current, ' '))
  {
    SplitWhole(t.current, ' ');
    NonEmptyPiecesCons(t.current, []);
  }

  /** A space outside quotes ends the pending piece. */
  lemma SpaceUnquoted(t: Tokenizer, s: string)
    requires !t.inQuotes && !t.escapeNext && ' ' !in t.current && s != [] && s[0] == ' '
    ensures var next := Feed(t, ' ');
      next.args + NonEmptyPieces(Split(next.current + s[1..], ' ')) == t.args + NonEmptyPieces(Split(t.current + s, ' '))
  {
    var next := Feed(t, ' ');
    var ended := if t.current != [] then [t.current] else [];
    assert next.args == t.args + ended && next.current == [];
    assert next.current + s[1..] == s[1..];
    assert t.current + s == t.current + [' '] + s[1..];
    SplitAtSpace(t.current, s[1..]);
    var rest := NonEmptyPieces(Split(s[1..], ' '));
    ConcatAssoc(t.args, ended, rest, t.args + ended + rest);
  }

  /** Splitting at a space: the piece before it, if not empty, then the pieces after it. */
  lemma SplitAtSpace(piece: string, rest: string)
    requires ' ' !in piece
    ensures NonEmptyPieces(Split(piece + [' '] + rest, ' '))
      == (if piece != [] then [piece] else []) + NonEmptyPieces(Split(rest, ' '))
  {
    SplitCons(piece, ' ', rest);
    NonEmptyPiecesCons(piece, Split(rest, ' '));
  }

  /** Any other character outside quotes joins the pending piece. */
  lemma CharUnquoted(t: Tokenizer, s: string)
    requires !t.inQuotes && !t.escapeNext && s != [] && s[0] != ' ' && s[0] != '"'
    ensures Feed(t, s[0]).current + s[1..] == t.current + s && Feed(t, s[0]).args == t.args
  {
  }

  /**
   * Input without '"' gives its pieces between single spaces, empty ones
   * dropped: a run of spaces separates like one, and tabs and backslashes
   * are ordinary characters.
   */
  lemma ParseUnquoted(input: string)
    requires '"' !in input
    ensures ParseArgs(input) == Success(NonEmptyPieces(Split(input, ' ')))
  {
    FeedAllUnquoted(Start, input);
    assert Start.current + input == input;
    assert Start.args + NonEmptyPieces(Split(input, ' ')) == NonEmptyPieces(Split(input, ' '));
  }

  // ----- Quotes -----

  /**
   * Text that can stand between quotes: no bare '"', and every '\' escapes
   * the character after it.
   */
  predicate QuotedText(q: string)
    decreases |q|
  {
    if q == [] then true
    else if q[0] == '\\' then |q| >= 2 && QuotedText(q[2..])
    else q[0] != '"' && QuotedText(q[1..])
  }

  /** Inside quotes, such text is added to the argument as it is, spaces, backslashes and escaped quotes included. */
  lemma {:induction false} FeedAllQuoted(t: Tokenizer, q: string)
    requires t.inQuotes && !t.escapeNext && QuotedText(q)
    ensures FeedAll(t, q) == t.(current := t.current + q)
    decreases |q|
  {
    if q != [] {
      if q[0] == '\\' {
        var escaping := Feed(t, q[0]);
        assert q[1..][1..] == q[2..];
        FeedAllQuoted(Feed(escaping, q[1]), q[2..]);
        assert t.current + [q[0]] + [q[1]] + q[2..] == t.current + q;
      } else {
        FeedAllQuoted(Feed(t, q[0]), q[1..]);
        assert t.current + [q[0]] + q[1..] == t.current + q;
      }
    }
  }

  /** A quoted span is one argument, without its quotes, whatever spaces it holds. */
  lemma QuotedSpan(q: string)
    requires q != [] && QuotedText(q)
    ensures ParseArgs("\"" + q + "\"") == Success([q])
  {
    var open := Tokenizer([], [], true, false);
    var inside := Tokenizer([], q, true, false);
    FeedAllAppend(Start, "\"" + q, "\"");
    FeedAllAppend(Start, "\"", q);
    assert FeedAll(Start, "\"") == FeedAll(open, []) == open;
    FeedAllQuoted(open, q);
    assert open.current + q == q;
    assert FeedAll(Start, "\"" + q) == inside;
    var closed := Tokenizer([], q, false, false);
    assert FeedAll(inside, "\"") == FeedAll(Feed(inside, '"'), []) == closed;
    assert FeedAll(Start, "\"" + q + "\"") == closed;
    assert Flush(closed) == [] + [q] == [q];
  }

  /** Inside quotes, `\"` is kept as both characters and does not close the quote. */
  lemma EscapedQuote(t: Tokenizer)
    requires t.inQuotes && !t.escapeNext
    ensures FeedAll(t, "\\\"") == t.(current := t.current + "\\\"")
  {
    assert "\\\""[1..] == "\"";
    assert t.current + ['\\'] + ['"'] == t.current + "\\\"";
  }

  /** While no '"' comes, the quote state does not change. */
  lemma {:induction false} FeedAllKeepsQuote(t: Tokenizer, s: string)
    requires '"' !in s
    ensures FeedAll(t, s).inQuotes == t.inQuotes
    decreases |s|
  {
    if s != [] {
      FeedAllKeepsQuote(Feed(t, s[0]), s[1..]);
    }
  }

  /** A quote opened after unquoted text and never closed is an error. */
  lemma UnclosedQuoteFails(before: string, after: string)
    requires '"' !in before && '"' !in after
    ensures ParseArgs(before + "\"" + after) == Failure(UnclosedQuote)
  {
    FeedAllAppend(Start, before + "\"", after);
    FeedAllAppend(Start, before, "\"");
    FeedAllUnquoted(Start, before);
    FeedAllKeepsQuote(FeedAll(Start, before + "\""), after);
  }

  predicate QuoteFree(t: Tokenizer) {
    && !t.escapeNext && '"' !in t.current
    && forall i | 0 <= i < |t.args| :: '"' !in t.args[i]
  }

  lemma {:induction false} FeedAllQuoteFree(t: Tokenizer, s: string)
    requires QuoteFree(t) && '\\' !in s
    ensures QuoteFree(FeedAll(t, s))
    decreases |s|
  {
    if s != [] {
      FeedAllQuoteFree(Feed(t, s[0]), s[1..]);
    }
  }

  /** Without a backslash, no '"' reaches any argument. */
  lemma QuotesRemoved(input: string)
    requires '\\' !in input
    ensures ParseArgs(input).Success? ==> forall i | 0 <= i < |ParseArgs(input).value| :: '"' !in ParseArgs(input).value[i]
  {
    FeedAllQuoteFree(Start, input);
  }

  /** Every '"' in `a` comes right after a '\\'. */
  predicate QuotesEscaped(a: string) {
    forall j | 0 <= j < |a| && a[j] == '"' :: j > 0 && a[j - 1] == '\\'
  }

  /** The loop's invariant: quotes reach the arguments only escaped, and a pending escape follows a '\\'. */
  predicate EscapedOnly(t: Tokenizer) {
    && QuotesEscaped(t.current)
    && (forall i | 0 <= i < |t.args| :: QuotesEscaped(t.args[i]))
    && (t.escapeNext ==> |t.current| > 0 && t.current[|t.current| - 1] == '\\')
  }

  lemma FeedEscapedOnly(t: Tokenizer, ch: char)
    requires EscapedOnly(t)
    ensures EscapedOnly(Feed(t, ch))
  {
    var c := t.current + [ch];
    assert forall j | 0 <= j < |t.current| :: c[j] == t.current[j];
  }

  lemma {:induction false} FeedAllEscapedOnly(t: Tokenizer, s: string)
    requires EscapedOnly(t)
    ensures EscapedOnly(FeedAll(t, s))
    decreases |s|
  {
    if s != [] {
      FeedEscapedOnly(t, s[0]);
      FeedAllEscapedOnly(Feed(t, s[0]), s[1..]);
    }
  }

  /** On every input, a '"' reaches an argument only as the character escaped by the '\\' before it. */
  lemma QuotesOnlyEscaped(input: string)
    ensures ParseArgs(input).Success? ==>
      forall i | 0 <= i < |ParseArgs(input).value| :: QuotesEscaped(ParseArgs(input).value[i])
  {
    FeedAllEscapedOnly(Start, input);
  }

  /** Keeping only non-empty pieces leaves pieces that are all non-empty unchanged. */
  lemma {:induction false} NonEmptyPiecesKeeps(pieces: seq<string>)
    requires forall i | 0 <= i < |pieces| :: pieces[i] != []
    ensures NonEmptyPieces(pieces) == pieces
  {
    if pieces != [] {
      NonEmptyPiecesKeeps(pieces[1..]);
    }
  }

  /** Words without spaces or quotes, joined by single spaces, are tokenized back into the same words. */
  lemma JoinedWords(words: seq<string>)
    requires |words| >= 1
    requires forall i | 0 <= i < |words| :: words[i] != [] && ' ' !in words[i] && '"' !in words[i]
    ensures ParseArgs(Join(words, " ")) == Success(words)
  {
    JoinAvoids(words, " ", '"');
    ParseUnquoted(Join(words, " "));
    SplitJoin(words, ' ');
    NonEmptyPiecesKeeps(words);
  }

  /** Outside quotes, a word without spaces or quotes is added to the pending argument. */
  lemma {:induction false} FeedAllBare(t: Tokenizer, w: string)
    requires !t.inQuotes && !t.escapeNext && ' ' !in w && '"' !in w
    ensures FeedAll(t, w) == t.(current := t.current + w)
    decreases |w|
  {
    if w != [] {
      FeedAllBare(Feed(t, w[0]), w[1..]);
      assert t.current + [w[0]] + w[1..] == t.current + w;
    }
  }

  predicate BareWords(words: seq<string>) {
    forall i | 0 <= i < |words| :: words[i] != [] && ' ' !in words[i] && '"' !in words[i]
  }

  /** Words joined by single spaces and followed by a space become arguments, and nothing is pending. */
  lemma {:induction false} FeedWords(args: seq<string>, words: seq<string>)
    requires |words| >= 1 && BareWords(words)
    ensures FeedAll(Tokenizer(args, [], false, false), Join(words, " ") + " ")
      == Tokenizer(args + words, [], false, false)
    decreases |words|
  {
    var t := Tokenizer(args, [], false, false);
    var w := words[0];
    FeedAllBare(t, w);
    assert [] + w == w;
    var word := Tokenizer(args, w, false, false);
    assert FeedAll(word, " ") == FeedAll(Feed(word, ' '), []);
    if |words| == 1 {
      FeedAllAppend(t, w, " ");
      assert args + [w] == args + words;
    } else {
      JoinCons(w, words[1..], " ");
      assert words == [w] + words[1..];
      var rest := Join(words[1..], " ") + " ";
      assert Join(words, " ") + " " == w + " " + rest;
      FeedAllAppend(t, w + " ", rest);
      FeedAllAppend(t, w, " ");
      FeedWords(args + [w], words[1..]);
      assert args + [w] + words[1..] == args + words;
    }
  }

  /** A quoted argument after plain words: the words, then the quoted text as one argument. */
  lemma QuotedAfterWords(words: seq<string>, q: string)
    requires |words| >= 1 && BareWords(words) && q != [] && QuotedText(q)
    ensures ParseArgs(Join(words, " ") + " \"" + q + "\"") == Success(words + [q])
  {
    var front := Join(words, " ") + " ";
    assert Join(words, " ") + " \"" + q + "\"" == front + ("\"" + q + "\"");
    FeedAllAppend(Start, front, "\"" + q + "\"");
    FeedWords([], words);
    assert [] + words == words;
    var after := Tokenizer(words, [], false, false);
    var open := Tokenizer(words, [], true, false);
    FeedAllAppend(after, "\"" + q, "\"");
    FeedAllAppend(after, "\"", q);
    assert FeedAll(after, "\"") == FeedAll(open, []) == open;
    FeedAllQuoted(open, q);
    assert [] + q == q;
    var inside := Tokenizer(words, q, true, false);
    var closed := Tokenizer(words, q, false, false);
    assert FeedAll(inside, "\"") == FeedAll(Feed(inside, '"'), []) == closed;
  }

  // ----- The cases of the tokenizer's unit test -----

  /** Text with neither '"' nor '\\' can stand between quotes. */
  lemma {:induction false} PlainQuotedText(q: string)
    requires '"' !in q && '\\' !in q
    ensures QuotedText(q)
    decreases |q|
  {
    if q != [] {
      PlainQuotedText(q[1..]);
    }
  }

  /** Text that can stand between quotes, an escaped character, then more such text. */
  lemma {:induction false} EscapeQuotedText(a: string, c: char, b: string)
    requires QuotedText(a) && QuotedText(b)
    ensures QuotedText(a + ['\\', c] + b)
    decreases |a|
  {
    if a == [] {
      assert (a + ['\\', c] + b)[2..] == b;
    } else if a[0] == '\\' {
      assert (a + ['\\', c] + b)[2..] == a[2..] + ['\\', c] + b;
      EscapeQuotedText(a[2..], c, b);
    } else {
      assert (a + ['\\', c] + b)[1..] == a[1..] + ['\\', c] + b;
      EscapeQuotedText(a[1..], c, b);
    }
  }

  lemma PlainCommand(input: string)
    requires input == "s3-vectors bucket list"
    ensures ParseArgs(input) == Success(["s3-vectors", "bucket", "list"])
  {
    var words := ["s3-vectors", "bucket", "list"];
    assert Join(words, " ") == input;
    JoinedWords(words);
  }

  lemma UnclosedCommand(input: string)
    requires input == "s3-vectors index list --query \"unclosed"
    ensures ParseArgs(input).Failure?
  {
    var before, after := "s3-vectors index list --query ", "unclosed";
    assert input == before + "\"" + after;
    UnclosedQuoteFails(before, after);
  }

  // ----- Special inputs in `run` -----

  /** What the shell does with one line of input. */
  datatype Action = Skip | Quit | ShowHelp | ClearScreen | RunInit | Execute(command: string)

  /** The dispatch on the trimmed input in `run`. */
  function Dispatch(input: string): (a: Action) {
    DispatchLine(Trim(input))
  }

  function DispatchLine(line: string): (a: Action) {
    if line == "" then Skip
    else if line == "exit" || line == "quit" || line == "/exit" || line == "/quit" then Quit
    else if line == "help" || line == "/help" || line == "?" then ShowHelp
    else if line == "clear" || line == "/clear" then ClearScreen
    else if line == "init" then RunInit
    else Execute(line)
  }

  const SpecialInputs: set<string> :=
    {"", "exit", "quit", "/exit", "/quit", "help", "/help", "?", "clear", "/clear", "init"}

  /** A trimmed line is run as a command exactly when it is none of the special inputs. */
  lemma DispatchLineSpec(line: string)
    ensures DispatchLine(line).Execute? <==> line !in SpecialInputs
    ensures DispatchLine(line).Execute? ==> DispatchLine(line).command == line
    ensures DispatchLine(line) == Skip <==> line == []
    ensures DispatchLine(line) == Quit <==> line in {"exit", "quit", "/exit", "/quit"}
    ensures DispatchLine(line) == ShowHelp <==> line in {"help", "/help", "?"}
    ensures DispatchLine(line) == ClearScreen <==> line in {"clear", "/clear"}
    ensures DispatchLine(line) == RunInit <==> line == "init"
  {
  }

  /**
   * Only the trimmed input matters; it is tokenized exactly when it is none
   * of the special inputs, and then it is the trimmed text that is run.
   */
  lemma DispatchSpec(input: string)
    ensures Dispatch(input) == Dispatch(Trim(input))
    ensures Dispatch(input).Execute? <==> Trim(input) !in SpecialInputs
    ensures Dispatch(input).Execute? ==> Dispatch(input).command == Trim(input) != []
  {
    TrimIdempotent(input);
    DispatchLineSpec(Trim(input));
  }
}
