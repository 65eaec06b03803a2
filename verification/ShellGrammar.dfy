/** The command language of sh.c: characters, tokens, command trees and the grammar that `parsecmd` follows,
    with a printer, and the round trip between the two. */
module ShellGrammar {
  import opened Common

  // ---------- tokens ----------

  predicate IsSpace(c: char) {
    c in " \t\r\n\U{000B}"
  }

  predicate IsSymbol(c: char) {
    c in "<|>&;()"
  }

  /** A character of an argument or file name. */
  predicate IsWordChar(c: char) {
    c != '\0' && !IsSpace(c) && !IsSymbol(c)
  }

  /** `Sym(c)` is the symbol `c`, except that `Sym('+')` is `>>`, as in `gettoken`. */
  datatype Token = Word(text: string) | Sym(kind: char)

  function WordLength(s: string): (n: nat)
    ensures n <= |s|
    ensures forall i :: 0 <= i < n ==> IsWordChar(s[i])
    ensures n < |s| ==> !IsWordChar(s[n])
  {
    if s != [] && IsWordChar(s[0]) then 1 + WordLength(s[1..]) else 0
  }

  /** The tokens of a text without NUL. */
  function Lex(s: string): seq<Token> {
    if s == [] || s[0] == '\0' then []
    else if IsSpace(s[0]) then Lex(s[1..])
    else if s[0] == '>' && |s| > 1 && s[1] == '>' then [Sym('+')] + Lex(s[2..])
    else if IsSymbol(s[0]) then [Sym(s[0])] + Lex(s[1..])
    else [Word(s[..WordLength(s)])] + Lex(s[WordLength(s)..])
  }

  predicate GoodToken(t: Token) {
    match t
    case Word(w) => w != [] && forall i :: 0 <= i < |w| ==> IsWordChar(w[i])
    case Sym(c) => IsSymbol(c) || c == '+'
  }

  predicate GoodTokens(ts: seq<Token>) {
    forall i :: 0 <= i < |ts| ==> GoodToken(ts[i])
  }

  lemma {:induction false} LexIsGood(s: string)
    ensures GoodTokens(Lex(s))
    decreases |s|
  {
    if s == [] || s[0] == '\0' {
    } else if IsSpace(s[0]) {
      LexIsGood(s[1..]);
    } else if s[0] == '>' && |s| > 1 && s[1] == '>' {
      LexIsGood(s[2..]);
    } else if IsSymbol(s[0]) {
      LexIsGood(s[1..]);
    } else {
      LexIsGood(s[WordLength(s)..]);
    }
  }

  // ---------- command trees ----------

  datatype Mode = Input | Truncate | Append

  datatype Cmd<W> =
    | Exec(argv: seq<W>)
    | Redir(cmd: Cmd<W>, file: W, mode: Mode)
    | Pipe(left: Cmd<W>, right: Cmd<W>)
    | List(left: Cmd<W>, right: Cmd<W>)
    | Back(cmd: Cmd<W>)

  const MAXARGS: nat := 10

  function ModeOf(kind: char): Mode {
    if kind == '<' then Input else if kind == '>' then Truncate else Append
  }

  function KindOf(mode: Mode): char {
    match mode
    case Input => '<'
    case Truncate => '>'
    case Append => '+'
  }

  predicate Starts(ts: seq<Token>, kinds: string) {
    ts != [] && ts[0].Sym? && ts[0].kind in kinds
  }

  // ---------- the grammar ----------

  /** The outcome of a parsing function: a tree and the tokens left, or one of the parser's panics. */
  datatype Parse = Ok(cmd: Cmd<string>, rest: seq<Token>) | Panic

  function ParseLine(ts: seq<Token>): (r: Parse)
    ensures r.Ok? ==> |r.rest| <= |ts|
    decreases |ts|, 4
  {
    match ParsePipe(ts)
    case Panic => Panic
    case Ok(c, ts1) =>
      var bg := ParseBacks(c, ts1);
      if Starts(bg.1, ";") then
        match ParseLine(bg.1[1..])
        case Panic => Panic
        case Ok(d, ts2) => Ok(List(bg.0, d), ts2)
      else Ok(bg.0, bg.1)
  }

  function ParseBacks(c: Cmd<string>, ts: seq<Token>): (r: (Cmd<string>, seq<Token>))
    ensures |r.1| <= |ts|
    decreases |ts|
  {
    if Starts(ts, "&") then ParseBacks(Back(c), ts[1..]) else (c, ts)
  }

  function ParsePipe(ts: seq<Token>): (r: Parse)
    ensures r.Ok? ==> |r.rest| <= |ts|
    decreases |ts|, 3
  {
    match ParseExec(ts)
    case Panic => Panic
    case Ok(c, ts1) =>
      if Starts(ts1, "|") then
        match ParsePipe(ts1[1..])
        case Panic => Panic
        case Ok(d, ts2) => Ok(Pipe(c, d), ts2)
      else Ok(c, ts1)
  }

  function ParseExec(ts: seq<Token>): (r: Parse)
    ensures r.Ok? ==> |r.rest| <= |ts|
    decreases |ts|, 2
  {
    if Starts(ts, "(") then ParseBlock(ts)
    else ParseMore(Exec([]), 0, ts)
  }

  function ParseBlock(ts: seq<Token>): (r: Parse)
    requires Starts(ts, "(")
    ensures r.Ok? ==> |r.rest| <= |ts|
    decreases |ts|, 1
  {
    match ParseLine(ts[1..])
    case Panic => Panic
    case Ok(c, ts1) =>
      if Starts(ts1, ")") then ParseRedirs(c, ts1[1..]) else Panic
  }

  function ParseRedirs(c: Cmd<string>, ts: seq<Token>): (r: Parse)
    ensures r.Ok? ==> |r.rest| <= |ts|
    decreases |ts|
  {
    if Starts(ts, "<>+") then
      if |ts| > 1 && ts[1].Word? then ParseRedirs(Redir(c, ts[1].text, ModeOf(ts[0].kind)), ts[2..])
      else Panic
    else Ok(c, ts)
  }

  /** Redirections, then any number of arguments each followed by redirections, for a command with `argc` arguments. */
  function ParseMore(c: Cmd<string>, argc: nat, ts: seq<Token>): (r: Parse)
    ensures r.Ok? ==> |r.rest| <= |ts|
    decreases |ts|, 0
  {
    match ParseRedirs(c, ts)
    case Panic => Panic
    case Ok(c1, ts1) =>
      if ts1 == [] || Starts(ts1, "|)&;") then Ok(c1, ts1)
      else if ts1[0].Word? && argc + 1 < MAXARGS then ParseMore(AddArg(c1, ts1[0].text), argc + 1, ts1[1..])
      else Panic
  }

  /** The parser keeps a pointer to the exec node while redirections are wrapped around it, and appends to it. */
  function AddArg<W>(c: Cmd<W>, w: W): Cmd<W> {
    match c
    case Exec(argv) => Exec(argv + [w])
    case Redir(d, file, mode) => Redir(AddArg(d, w), file, mode)
    case _ => c
  }

  /** `parsecmd` on a text: the whole text must be one line. */
  function ParseText(s: string): Option<Cmd<string>> {
    match ParseLine(Lex(s))
    case Ok(c, rest) => if rest == [] then Some(c) else None
    case Panic => None
  }

  // ---------- printing ----------

  /** How loosely the outermost operator binds: exec and redirection, pipe, background, list. */
  function Looseness<W>(c: Cmd<W>): nat {
    match c
    case Exec(_) => 0
    case Redir(_, _, _) => 0
    case Pipe(_, _) => 1
    case Back(_) => 2
    case List(_, _) => 3
  }

  function Words(argv: seq<string>): seq<Token> {
    if argv == [] then [] else Words(argv[..|argv| - 1]) + [Word(argv[|argv| - 1])]
  }

  /** The tokens of a command where an operator of looseness at most `level` may stand. */
  function Print(c: Cmd<string>, level: nat): seq<Token>
    decreases c, 1
  {
    if Looseness(c) > level then [Sym('(')] + Body(c) + [Sym(')')] else Body(c)
  }

  function Body(c: Cmd<string>): seq<Token>
    decreases c, 0
  {
    match c
    case Exec(argv) => Words(argv)
    case Redir(d, file, mode) => Print(d, 0) + [Sym(KindOf(mode)), Word(file)]
    case Pipe(l, r) => Print(l, 0) + [Sym('|')] + Print(r, 1)
    case Back(d) => Print(d, 2) + [Sym('&')]
    case List(l, r) => Print(l, 2) + [Sym(';')] + Print(r, 3)
  }

  function RenderToken(t: Token): string {
    match t
    case Word(w) => w + " "
    case Sym(c) => if c == '+' then ">> " else [c, ' ']
  }

  function Render(ts: seq<Token>): string {
    if ts == [] then "" else RenderToken(ts[0]) + Render(ts[1..])
  }

  /** Fewer than `MAXARGS` arguments everywhere, and words that the tokenizer reads as words. */
  predicate WellFormed(c: Cmd<string>) {
    match c
    case Exec(argv) => |argv| < MAXARGS && forall i :: 0 <= i < |argv| ==> GoodToken(Word(argv[i]))
    case Redir(d, file, _) => WellFormed(d) && GoodToken(Word(file))
    case Pipe(l, r) => WellFormed(l) && WellFormed(r)
    case List(l, r) => WellFormed(l) && WellFormed(r)
    case Back(d) => WellFormed(d)
  }

  // ---------- parsing what was printed ----------

  /** The command under redirections only. */
  predicate IsSimple<W>(c: Cmd<W>) {
    match c
    case Exec(_) => true
    case Redir(d, _, _) => IsSimple(d)
    case _ => false
  }

  function Argc<W>(c: Cmd<W>): nat
    requires IsSimple(c)
  {
    match c
    case Exec(argv) => |argv|
    case Redir(d, _, _) => Argc(d)
  }

  /** What `ParseExec` still does after it has built `c`. */
  function Continue(c: Cmd<string>, rest: seq<Token>): Parse {
    if IsSimple(c) then ParseMore(c, Argc(c), rest) else ParseRedirs(c, rest)
  }

  /** A command that is printed in parentheses is parsed at the loosest level first. */
  ghost function Rank(c: Cmd<string>, level: nat): nat {
    if Looseness(c) <= level then level else 4 + level
  }

  lemma {:induction false} ExecRoundTrip(c: Cmd<string>, rest: seq<Token>)
    requires WellFormed(c) && !Starts(rest, "(")
    ensures ParseExec(Print(c, 0) + rest) == Continue(c, rest)
    decreases c, Rank(c, 0)
  {
    match c
    case Exec(argv) =>
      ArgsRoundTrip(argv, rest);
    case Redir(d, file, mode) =>
      var tail := [Sym(KindOf(mode)), Word(file)] + rest;
      assert Print(c, 0) + rest == Print(d, 0) + tail;
      ExecRoundTrip(d, tail);
      assert tail[2..] == rest;
      assert ParseRedirs(d, tail) == ParseRedirs(c, rest);
    case _ =>
      var ts := Print(c, 0) + rest;
      assert ts[1..] == Print(c, 3) + ([Sym(')')] + rest);
      LineRoundTrip(c, [Sym(')')] + rest);
      assert ([Sym(')')] + rest)[1..] == rest;
  }

  lemma {:induction false} ArgsRoundTrip(argv: seq<string>, rest: seq<Token>)
    requires WellFormed(Exec(argv)) && !Starts(rest, "(")
    ensures ParseExec(Words(argv) + rest) == ParseMore(Exec(argv), |argv|, rest)
    decreases |argv|
  {
    if argv == [] {
      assert Words(argv) + rest == rest;
    } else {
      var a, w := argv[..|argv| - 1], argv[|argv| - 1];
      assert Words(argv) + rest == Words(a) + ([Word(w)] + rest);
      ArgsRoundTrip(a, [Word(w)] + rest);
      assert a + [w] == argv;
      assert ([Word(w)] + rest)[1..] == rest;
    }
  }

  lemma ContinueStops(c: Cmd<string>, rest: seq<Token>)
    requires rest == [] || Starts(rest, "|)&;")
    ensures Continue(c, rest) == Ok(c, rest)
  {}

  lemma {:induction false} PipeRoundTrip(c: Cmd<string>, rest: seq<Token>)
    requires WellFormed(c) && (rest == [] || Starts(rest, ")&;"))
    ensures ParsePipe(Print(c, 1) + rest) == Ok(c, rest)
    decreases c, Rank(c, 1)
  {
    match c
    case Pipe(l, r) =>
      var tail := [Sym('|')] + Print(r, 1) + rest;
      assert Print(c, 1) + rest == Print(l, 0) + tail;
      ExecRoundTrip(l, tail);
      ContinueStops(l, tail);
      assert tail[1..] == Print(r, 1) + rest;
      PipeRoundTrip(r, rest);
    case _ =>
      assert Print(c, 1) == Print(c, 0);
      ExecRoundTrip(c, rest);
      ContinueStops(c, rest);
  }

  lemma {:induction false} BackRoundTrip(c: Cmd<string>, rest: seq<Token>)
    requires WellFormed(c) && (rest == [] || Starts(rest, ")&;"))
    ensures ParsePipe(Print(c, 2) + rest).Ok?
    ensures var p := ParsePipe(Print(c, 2) + rest); ParseBacks(p.cmd, p.rest) == ParseBacks(c, rest)
    decreases c, Rank(c, 2)
  {
    match c
    case Back(d) =>
      var tail := [Sym('&')] + rest;
      assert Print(c, 2) + rest == Print(d, 2) + tail;
      BackRoundTrip(d, tail);
      assert tail[1..] == rest;
    case _ =>
      assert Print(c, 2) == Print(c, 1);
      PipeRoundTrip(c, rest);
  }

  lemma {:induction false} LineRoundTrip(c: Cmd<string>, rest: seq<Token>)
    requires WellFormed(c) && (rest == [] || Starts(rest, ")"))
    ensures ParseLine(Print(c, 3) + rest) == Ok(c, rest)
    decreases c, Rank(c, 3)
  {
    match c
    case List(l, r) =>
      var tail := [Sym(';')] + Print(r, 3) + rest;
      assert Print(c, 3) + rest == Print(l, 2) + tail;
      BackRoundTrip(l, tail);
      assert tail[1..] == Print(r, 3) + rest;
      LineRoundTrip(r, rest);
    case _ =>
      assert Print(c, 3) == Print(c, 2);
      BackRoundTrip(c, rest);
  }

  // ---------- reading what was rendered ----------

  lemma {:induction false} WordThenSpace(w: string, rest: string)
    requires forall i :: 0 <= i < |w| ==> IsWordChar(w[i])
    ensures WordLength(w + " " + rest) == |w|
  {
    var s := w + " " + rest;
    if w != [] {
      assert s[1..] == w[1..] + " " + rest;
      WordThenSpace(w[1..], rest);
    }
  }

  lemma LexRendered(t: Token, rest: string)
    requires GoodToken(t)
    ensures Lex(RenderToken(t) + rest) == [t] + Lex(rest)
  {
    var s := RenderToken(t) + rest;
    match t
    case Word(w) =>
      assert s == w + " " + rest;
      WordThenSpace(w, rest);
      assert IsWordChar(s[0]) by { assert s[0] == w[0]; }
      assert s[..|w|] == w && s[|w|..] == " " + rest && (" " + rest)[1..] == rest;
    case Sym(c) =>
      var n := if c == '+' then 2 else 1;
      assert s[n..] == " " + rest && (" " + rest)[1..] == rest;
  }

  lemma {:induction false} RenderRoundTrip(ts: seq<Token>)
    requires GoodTokens(ts)
    ensures Lex(Render(ts)) == ts
  {
    if ts == [] {
    } else {
      LexRendered(ts[0], Render(ts[1..]));
      RenderRoundTrip(ts[1..]);
    }
  }

  lemma {:induction false} WordsAreGood(argv: seq<string>)
    requires forall i :: 0 <= i < |argv| ==> GoodToken(Word(argv[i]))
    ensures GoodTokens(Words(argv))
  {
    if argv == [] {
    } else {
      WordsAreGood(argv[..|argv| - 1]);
    }
  }

  lemma {:induction false} PrintIsGood(c: Cmd<string>, level: nat)
    requires WellFormed(c)
    ensures GoodTokens(Print(c, level))
    decreases c, 1
  {
    BodyIsGood(c);
  }

  lemma {:induction false} BodyIsGood(c: Cmd<string>)
    requires WellFormed(c)
    ensures GoodTokens(Body(c))
    decreases c, 0
  {
    match c
    case Exec(argv) => WordsAreGood(argv);
    case Redir(d, _, _) => PrintIsGood(d, 0);
    case Pipe(l, r) => PrintIsGood(l, 0); PrintIsGood(r, 1);
    case Back(d) => PrintIsGood(d, 2);
    case List(l, r) => PrintIsGood(l, 2); PrintIsGood(r, 3);
  }

  /** A command as text, with parentheses where precedence needs them. */
  function Show(c: Cmd<string>): string {
    Render(Print(c, 3))
  }

  /** Every well-formed command tree is the parse of its own text. */
  lemma RoundTrip(c: Cmd<string>)
    requires WellFormed(c)
    ensures ParseText(Show(c)) == Some(c)
  {
    PrintIsGood(c, 3);
    RenderRoundTrip(Print(c, 3));
    LineRoundTrip(c, []);
    assert Print(c, 3) + [] == Print(c, 3);
  }

  // ---------- parsed trees are well formed ----------

  lemma {:induction false} ParseLineWellFormed(ts: seq<Token>)
    requires GoodTokens(ts) && ParseLine(ts).Ok?
    ensures WellFormed(ParseLine(ts).cmd) && GoodTokens(ParseLine(ts).rest)
    decreases |ts|, 4
  {
    ParsePipeWellFormed(ts);
    var p := ParsePipe(ts);
    ParseBacksWellFormed(p.cmd, p.rest);
    var bg := ParseBacks(p.cmd, p.rest);
    if Starts(bg.1, ";") {
      ParseLineWellFormed(bg.1[1..]);
    }
  }

  lemma {:induction false} ParseBacksWellFormed(c: Cmd<string>, ts: seq<Token>)
    requires GoodTokens(ts) && WellFormed(c)
    ensures WellFormed(ParseBacks(c, ts).0) && GoodTokens(ParseBacks(c, ts).1)
    decreases |ts|
  {
    if Starts(ts, "&") {
      ParseBacksWellFormed(Back(c), ts[1..]);
    }
  }

  lemma {:induction false} ParsePipeWellFormed(ts: seq<Token>)
    requires GoodTokens(ts) && ParsePipe(ts).Ok?
    ensures WellFormed(ParsePipe(ts).cmd) && GoodTokens(ParsePipe(ts).rest)
    decreases |ts|, 3
  {
    ParseExecWellFormed(ts);
    var p := ParseExec(ts);
    if Starts(p.rest, "|") {
      ParsePipeWellFormed(p.rest[1..]);
    }
  }

  lemma {:induction false} ParseExecWellFormed(ts: seq<Token>)
    requires GoodTokens(ts) && ParseExec(ts).Ok?
    ensures WellFormed(ParseExec(ts).cmd) && GoodTokens(ParseExec(ts).rest)
    decreases |ts|, 2
  {
    if Starts(ts, "(") {
      assert ParseExec(ts) == ParseBlock(ts);
      ParseLineWellFormed(ts[1..]);
      var p := ParseLine(ts[1..]);
      ParseRedirsWellFormed(p.cmd, p.rest[1..]);
    } else {
      ParseMoreWellFormed(Exec([]), 0, ts);
    }
  }

  lemma {:induction false} ParseRedirsWellFormed(c: Cmd<string>, ts: seq<Token>)
    requires GoodTokens(ts) && WellFormed(c) && ParseRedirs(c, ts).Ok?
    ensures WellFormed(ParseRedirs(c, ts).cmd) && GoodTokens(ParseRedirs(c, ts).rest)
    ensures IsSimple(c) ==> IsSimple(ParseRedirs(c, ts).cmd) && Argc(ParseRedirs(c, ts).cmd) == Argc(c)
    decreases |ts|
  {
    if Starts(ts, "<>+") {
      assert GoodToken(ts[1]);
      ParseRedirsWellFormed(Redir(c, ts[1].text, ModeOf(ts[0].kind)), ts[2..]);
    }
  }

  lemma {:induction false} AddArgWellFormed(c: Cmd<string>, w: string)
    requires IsSimple(c) && WellFormed(c) && Argc(c) + 1 < MAXARGS && GoodToken(Word(w))
    ensures IsSimple(AddArg(c, w)) && WellFormed(AddArg(c, w)) && Argc(AddArg(c, w)) == Argc(c) + 1
  {
    if c.Redir? {
      AddArgWellFormed(c.cmd, w);
    }
  }

  lemma {:induction false} ParseMoreWellFormed(c: Cmd<string>, argc: nat, ts: seq<Token>)
    requires GoodTokens(ts) && IsSimple(c) && WellFormed(c) && argc == Argc(c) && ParseMore(c, argc, ts).Ok?
    ensures WellFormed(ParseMore(c, argc, ts).cmd) && GoodTokens(ParseMore(c, argc, ts).rest)
    decreases |ts|, 0
  {
    ParseRedirsWellFormed(c, ts);
    var p := ParseRedirs(c, ts);
    if p.rest != [] && p.rest[0].Word? {
      AddArgWellFormed(p.cmd, p.rest[0].text);
      ParseMoreWellFormed(AddArg(p.cmd, p.rest[0].text), argc + 1, p.rest[1..]);
    }
  }

  /** Printing is a normal form: for every text the parser accepts, the printed tree parses to the same tree. */
  lemma ParsePrintParse(s: string)
    requires ParseText(s).Some?
    ensures WellFormed(ParseText(s).value)
    ensures ParseText(Show(ParseText(s).value)) == ParseText(s)
  {
    LexIsGood(s);
    ParseLineWellFormed(Lex(s));
    RoundTrip(ParseText(s).value);
  }
}
