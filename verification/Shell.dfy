/** The parser of sh.c on its input buffer: a tokenizer and a recursive-descent parser that move a cursor, and
    `nulterminate`, which writes terminators into the buffer. */
module Shell {
  import opened Common
  import opened ShellGrammar

  /** A word of the text: the pointers `q` (or `argv[i]`) and `eq` (or `eargv[i]`) as indices. */
  datatype Span = Span(q: nat, eq: nat)

  predicate WordSpan(s: string, w: Span) {
    && w.q < w.eq <= |s|
    && (forall i :: w.q <= i < w.eq ==> IsWordChar(s[i]))
    && (w.eq < |s| ==> !IsWordChar(s[w.eq]))
  }

  function WordText(s: string, w: Span): string {
    if w.q <= w.eq <= |s| then s[w.q..w.eq] else ""
  }

  predicate Spans(s: string, c: Cmd<Span>) {
    match c
    case Exec(argv) => forall i :: 0 <= i < |argv| ==> WordSpan(s, argv[i])
    case Redir(d, file, _) => Spans(s, d) && WordSpan(s, file)
    case Pipe(l, r) => Spans(s, l) && Spans(s, r)
    case List(l, r) => Spans(s, l) && Spans(s, r)
    case Back(d) => Spans(s, d)
  }

  function Texts(s: string, argv: seq<Span>): (r: seq<string>)
    ensures |r| == |argv| && forall i :: 0 <= i < |r| ==> r[i] == WordText(s, argv[i])
  {
    if argv == [] then [] else Texts(s, argv[..|argv| - 1]) + [WordText(s, argv[|argv| - 1])]
  }

  /** The tree with the words its pointers delimit. */
  function Text(s: string, c: Cmd<Span>): Cmd<string> {
    match c
    case Exec(argv) => Exec(Texts(s, argv))
    case Redir(d, file, mode) => Redir(Text(s, d), WordText(s, file), mode)
    case Pipe(l, r) => Pipe(Text(s, l), Text(s, r))
    case List(l, r) => List(Text(s, l), Text(s, r))
    case Back(d) => Back(Text(s, d))
  }

  lemma {:induction false} AddArgText(s: string, c: Cmd<Span>, w: Span)
    requires Spans(s, c) && WordSpan(s, w)
    ensures Spans(s, AddArg(c, w)) && Text(s, AddArg(c, w)) == AddArg(Text(s, c), WordText(s, w))
  {
    match c
    case Exec(argv) =>
      assert Texts(s, argv + [w]) == Texts(s, argv) + [WordText(s, w)];
    case Redir(d, _, _) => AddArgText(s, d, w);
    case _ =>
  }

  // ---------- the tokenizer ----------

  /** The tokens after the cursor. */
  function Ahead(s: string, p: nat): seq<Token> {
    if p <= |s| then Lex(s[p..]) else []
  }

  method SkipSpace(s: string, p: nat) returns (next: nat)
    requires p <= |s|
    ensures p <= next <= |s| && Ahead(s, next) == Ahead(s, p)
    ensures next < |s| ==> !IsSpace(s[next])
  {
    next := p;
    while next < |s| && IsSpace(s[next])
      invariant p <= next <= |s| && Ahead(s, next) == Ahead(s, p)
    {
      assert s[next..][1..] == s[next + 1..];
      next := next + 1;
    }
  }

  method SkipWord(s: string, p: nat) returns (eq: nat)
    requires p < |s| && '\0' !in s && IsWordChar(s[p])
    ensures WordSpan(s, Span(p, eq)) && eq == p + WordLength(s[p..])
  {
    eq := p;
    while eq < |s| && !IsSpace(s[eq]) && !IsSymbol(s[eq])
      invariant p <= eq <= |s|
      invariant forall i :: p <= i < eq ==> IsWordChar(s[i])
      invariant WordLength(s[p..]) == eq - p + WordLength(s[eq..])
    {
      assert s[eq] in s && s[eq..][1..] == s[eq + 1..];
      eq := eq + 1;
    }
  }

  /** `w` and `kind` are the first token of `ts`, as `gettoken` gives it. */
  ghost predicate First(s: string, ts: seq<Token>, kind: char, w: Span) {
    ts != [] && match ts[0]
                case Sym(c) => kind == c && kind != 'a' && kind != '\0'
                case Word(text) => kind == 'a' && WordSpan(s, w) && WordText(s, w) == text
  }

  /** Consumes the token at the cursor. */
  method TakeToken(s: string, q: nat) returns (kind: char, eq: nat)
    requires q < |s| && '\0' !in s && !IsSpace(s[q])
    ensures q < eq <= |s| && First(s, Ahead(s, q), kind, Span(q, eq)) && Ahead(s, eq) == Ahead(s, q)[1..]
  {
    ghost var t := s[q..];
    assert t[0] == s[q] && s[q] in s;
    if IsSymbol(s[q]) {
      kind := s[q];
      eq := q + 1;
      assert t[1..] == s[q + 1..];
      if kind == '>' && eq < |s| && s[eq] == '>' {
        kind := '+';
        eq := eq + 1;
        assert t[2..] == s[q + 2..];
      }
    } else {
      kind := 'a';
      eq := SkipWord(s, q);
      assert t[eq - q..] == s[eq..] && t[..eq - q] == s[q..eq];
    }
  }

  /** `gettoken`: 0 at the end; otherwise the kind of the next token ('a' for a word, with its span), now consumed. */
  method GetToken(s: string, p: nat) returns (kind: char, w: Span, next: nat)
    requires p <= |s| && '\0' !in s
    ensures p <= next <= |s|
    ensures Ahead(s, p) == [] <==> kind == '\0'
    ensures Ahead(s, p) == [] ==> Ahead(s, next) == []
    ensures Ahead(s, p) != [] ==> p < next && Ahead(s, next) == Ahead(s, p)[1..] && First(s, Ahead(s, p), kind, w)
  {
    var q := SkipSpace(s, p);
    var eq := q;
    if q == |s| {
      kind := '\0';
    } else {
      kind, eq := TakeToken(s, q);
    }
    w := Span(q, eq);
    next := SkipSpace(s, eq);
  }

  /** `peek`: does the next token start with one of the symbols `toks`? */
  method Peek(s: string, p: nat, toks: string) returns (found: bool, next: nat)
    requires p <= |s| && '\0' !in s && forall c :: c in toks ==> IsSymbol(c)
    ensures p <= next <= |s| && Ahead(s, next) == Ahead(s, p)
    ensures found <==> Starts(Ahead(s, p), if '>' in toks then toks + "+" else toks)
    ensures !found && toks == "" ==> (next == |s| <==> Ahead(s, p) == [])
  {
    next := SkipSpace(s, p);
    found := next < |s| && s[next] in toks;
    if next < |s| {
      assert s[next..][0] == s[next] && s[next] in s;
    }
  }

  // ---------- the parser ----------

  datatype Outcome = Done(cmd: Cmd<Span>, next: nat) | Panicked

  /** The parser, started at `p`, did what the grammar says. */
  ghost predicate Agrees(s: string, p: nat, o: Outcome, r: Parse) {
    match o
    case Done(c, next) =>
      r.Ok? && p <= next <= |s| && Text(s, c) == r.cmd && Ahead(s, next) == r.rest && Spans(s, c)
    case Panicked => r.Panic?
  }

  method ParseLineAt(s: string, ps: nat) returns (o: Outcome)
    requires ps <= |s| && '\0' !in s
    ensures Agrees(s, ps, o, ParseLine(Ahead(s, ps)))
    decreases |s| - ps, 4
  {
    o := ParsePipeAt(s, ps);
    if o.Panicked? {
      return;
    }
    var cmd := o.cmd;
    ghost var bg := ParseBacks(Text(s, cmd), Ahead(s, o.next));
    var more, p := Peek(s, o.next, "&");
    while more
      invariant ps <= p <= |s| && Spans(s, cmd)
      invariant ParseBacks(Text(s, cmd), Ahead(s, p)) == bg
      invariant more <==> Starts(Ahead(s, p), "&")
      decreases |s| - p
    {
      var _, _, p1 := GetToken(s, p);
      cmd := Back(cmd);
      more, p := Peek(s, p1, "&");
    }
    var list, p2 := Peek(s, p, ";");
    if !list {
      return Done(cmd, p2);
    }
    var _, _, p3 := GetToken(s, p2);
    var rest := ParseLineAt(s, p3);
    if rest.Panicked? {
      return Panicked;
    }
    return Done(List(cmd, rest.cmd), rest.next);
  }

  method ParsePipeAt(s: string, ps: nat) returns (o: Outcome)
    requires ps <= |s| && '\0' !in s
    ensures Agrees(s, ps, o, ParsePipe(Ahead(s, ps)))
    decreases |s| - ps, 3
  {
    o := ParseExecAt(s, ps);
    if o.Panicked? {
      return;
    }
    var pipe, p := Peek(s, o.next, "|");
    if !pipe {
      return Done(o.cmd, p);
    }
    var _, _, p1 := GetToken(s, p);
    var rest := ParsePipeAt(s, p1);
    if rest.Panicked? {
      return Panicked;
    }
    return Done(Pipe(o.cmd, rest.cmd), rest.next);
  }

  method ParseRedirsAt(s: string, cmd: Cmd<Span>, ps: nat) returns (o: Outcome)
    requires ps <= |s| && '\0' !in s && Spans(s, cmd)
    ensures Agrees(s, ps, o, ParseRedirs(Text(s, cmd), Ahead(s, ps)))
    ensures o.Done? ==> !Starts(Ahead(s, o.next), "<>+")
  {
    var ret := cmd;
    var more, p := Peek(s, ps, "<>");
    while more
      invariant ps <= p <= |s| && Spans(s, ret)
      invariant ParseRedirs(Text(s, ret), Ahead(s, p)) == ParseRedirs(Text(s, cmd), Ahead(s, ps))
      invariant more <==> Starts(Ahead(s, p), "<>+")
      decreases |s| - p
    {
      var tok, _, p1 := GetToken(s, p);
      var kind, file, p2 := GetToken(s, p1);
      if kind != 'a' {
        return Panicked;
      }
      assert Ahead(s, p)[1..][1..] == Ahead(s, p)[2..];
      ret := Redir(ret, file, ModeOf(tok));
      more, p := Peek(s, p2, "<>");
    }
    return Done(ret, p);
  }

  method ParseBlockAt(s: string, ps: nat) returns (o: Outcome)
    requires ps <= |s| && '\0' !in s && Starts(Ahead(s, ps), "(")
    ensures Agrees(s, ps, o, ParseBlock(Ahead(s, ps)))
    decreases |s| - ps, 1
  {
    var _, _, p := GetToken(s, ps);
    o := ParseLineAt(s, p);
    if o.Panicked? {
      return;
    }
    var close, p1 := Peek(s, o.next, ")");
    if !close {
      return Panicked;
    }
    var _, _, p2 := GetToken(s, p1);
    o := ParseRedirsAt(s, o.cmd, p2);
  }

  method ParseExecAt(s: string, ps: nat) returns (o: Outcome)
    requires ps <= |s| && '\0' !in s
    ensures Agrees(s, ps, o, ParseExec(Ahead(s, ps)))
    decreases |s| - ps, 2
  {
    var block, p0 := Peek(s, ps, "(");
    if block {
      o := ParseBlockAt(s, p0);
      return;
    }
    o := ParseRedirsAt(s, Exec([]), p0);
    if o.Panicked? {
      return;
    }
    o := ParseArgsAt(s, o.cmd, o.next);
  }

  /** One argument is taken where no redirection stands. */
  lemma MoreArg(c: Cmd<string>, argc: nat, ts: seq<Token>)
    requires ts != [] && ts[0].Word? && !Starts(ts, "<>+") && !Starts(ts, "|)&;")
    ensures ParseMore(c, argc, ts)
         == if argc + 1 < MAXARGS then ParseMore(AddArg(c, ts[0].text), argc + 1, ts[1..]) else Panic
  {
  }

  /** Redirections taken first leave the same arguments to take. */
  lemma MoreRedirs(c: Cmd<string>, argc: nat, ts: seq<Token>)
    requires ParseRedirs(c, ts).Ok? ==> !Starts(ParseRedirs(c, ts).rest, "<>+")
    ensures ParseMore(c, argc, ts)
         == match ParseRedirs(c, ts)
            case Panic => Panic
            case Ok(c1, ts1) => ParseMore(c1, argc, ts1)
  {
  }

  /** The word `w` as one more argument, and the redirections after it. */
  method AddArgAt(s: string, cmd: Cmd<Span>, argc: nat, w: Span, ps: nat) returns (o: Outcome)
    requires ps <= |s| && '\0' !in s && Spans(s, cmd) && WordSpan(s, w)
    ensures match o
            case Done(c, next) =>
              && argc + 1 < MAXARGS && ps <= next <= |s| && Spans(s, c) && !Starts(Ahead(s, next), "<>+")
              && ParseMore(AddArg(Text(s, cmd), WordText(s, w)), argc + 1, Ahead(s, ps))
              == ParseMore(Text(s, c), argc + 1, Ahead(s, next))
            case Panicked =>
              argc + 1 < MAXARGS ==> ParseMore(AddArg(Text(s, cmd), WordText(s, w)), argc + 1, Ahead(s, ps)).Panic?
  {
    AddArgText(s, cmd, w);
    var ret := AddArg(cmd, w);
    if argc + 1 >= MAXARGS {
      return Panicked;
    }
    o := ParseRedirsAt(s, ret, ps);
    MoreRedirs(Text(s, ret), argc + 1, Ahead(s, ps));
  }

  /** One round of the argument loop: `more` tells whether it goes on from the command and place reached. */
  method ArgAt(s: string, cmd: Cmd<Span>, argc: nat, ps: nat) returns (o: Outcome, more: bool)
    requires ps <= |s| && '\0' !in s && Spans(s, cmd)
    requires !Starts(Ahead(s, ps), "<>+") && !Starts(Ahead(s, ps), "|)&;")
    ensures !more ==> Agrees(s, ps, o, ParseMore(Text(s, cmd), argc, Ahead(s, ps)))
    ensures more ==>
              && o.Done? && ps < o.next <= |s| && Spans(s, o.cmd) && !Starts(Ahead(s, o.next), "<>+")
              && ParseMore(Text(s, cmd), argc, Ahead(s, ps)) == ParseMore(Text(s, o.cmd), argc + 1, Ahead(s, o.next))
  {
    var tok, w, p := GetToken(s, ps);
    if tok == '\0' {
      return Done(cmd, p), false;
    }
    if tok != 'a' {
      return Panicked, false;
    }
    MoreArg(Text(s, cmd), argc, Ahead(s, ps));
    o := AddArgAt(s, cmd, argc, w, p);
    more := o.Done?;
  }

  /** The loop over the arguments, each with the redirections after it. */
  method ParseArgsAt(s: string, cmd: Cmd<Span>, ps: nat) returns (o: Outcome)
    requires ps <= |s| && '\0' !in s && Spans(s, cmd) && !Starts(Ahead(s, ps), "<>+")
    ensures Agrees(s, ps, o, ParseMore(Text(s, cmd), 0, Ahead(s, ps)))
  {
    var argc := 0;
    var ret := cmd;
    var stop, p := Peek(s, ps, "|)&;");
    while !stop
      invariant ps <= p <= |s| && Spans(s, ret)
      invariant ParseMore(Text(s, ret), argc, Ahead(s, p)) == ParseMore(Text(s, cmd), 0, Ahead(s, ps))
      invariant !Starts(Ahead(s, p), "<>+")
      invariant stop <==> Starts(Ahead(s, p), "|)&;")
      decreases |s| - p
    {
      var more;
      o, more := ArgAt(s, ret, argc, p);
      if !more {
        return;
      }
      ret, argc := o.cmd, argc + 1;
      stop, p := Peek(s, o.next, "|)&;");
    }
    return Done(ret, p);
  }

  // ---------- terminating the words in the buffer ----------

  /** The C string that starts at `q` in a buffer. */
  function CString(b: seq<char>, q: nat): string
    decreases |b| - q
  {
    if q >= |b| || b[q] == '\0' then "" else [b[q]] + CString(b, q + 1)
  }

  /** The positions where `nulterminate` writes. */
  ghost function Ends(c: Cmd<Span>): set<nat> {
    match c
    case Exec(argv) => set i | 0 <= i < |argv| :: argv[i].eq
    case Redir(d, file, _) => Ends(d) + {file.eq}
    case Pipe(l, r) => Ends(l) + Ends(r)
    case List(l, r) => Ends(l) + Ends(r)
    case Back(d) => Ends(d)
  }

  /** The tree as `runcmd` reads it: every word is the C string at its pointer. */
  function ReadBack(b: seq<char>, c: Cmd<Span>): Cmd<string> {
    match c
    case Exec(argv) => Exec(seq(|argv|, i requires 0 <= i < |argv| => CString(b, argv[i].q)))
    case Redir(d, file, mode) => Redir(ReadBack(b, d), CString(b, file.q), mode)
    case Pipe(l, r) => Pipe(ReadBack(b, l), ReadBack(b, r))
    case List(l, r) => List(ReadBack(b, l), ReadBack(b, r))
    case Back(d) => Back(ReadBack(b, d))
  }

  /** `b` is the text and its terminator, with further terminators at the positions `ends`. */
  ghost predicate Terminated(s: string, b: seq<char>, ends: set<nat>) {
    && |s| < |b| && b[|s|] == '\0'
    && forall i :: 0 <= i < |s| ==> b[i] == if i in ends then '\0' else s[i]
  }

  method NulTerminate(s: string, cmd: Cmd<Span>, buf: array<char>, ghost done: set<nat>)
    requires Spans(s, cmd) && Terminated(s, buf[..], done)
    modifies buf
    ensures Terminated(s, buf[..], done + Ends(cmd))
  {
    match cmd
    case Exec(argv) =>
      for i := 0 to |argv|
        invariant Terminated(s, buf[..], done + set j | 0 <= j < i :: argv[j].eq)
      {
        assert WordSpan(s, argv[i]);
        buf[argv[i].eq] := '\0';
      }
    case Redir(d, file, _) =>
      NulTerminate(s, d, buf, done);
      buf[file.eq] := '\0';
    case Pipe(l, r) =>
      NulTerminate(s, l, buf, done);
      NulTerminate(s, r, buf, done + Ends(l));
      assert done + Ends(cmd) == done + Ends(l) + Ends(r);
    case List(l, r) =>
      NulTerminate(s, l, buf, done);
      NulTerminate(s, r, buf, done + Ends(l));
      assert done + Ends(cmd) == done + Ends(l) + Ends(r);
    case Back(d) =>
      NulTerminate(s, d, buf, done);
  }

  /** Terminators only fall on the terminator of the text or on characters that cannot be inside a word. */
  ghost predicate BetweenWords(s: string, ends: set<nat>) {
    forall e :: e in ends && e < |s| ==> !IsWordChar(s[e])
  }

  lemma {:induction false} EndsAreBetweenWords(s: string, c: Cmd<Span>)
    requires Spans(s, c)
    ensures BetweenWords(s, Ends(c))
  {
    match c
    case Exec(argv) =>
    case Redir(d, _, _) => EndsAreBetweenWords(s, d);
    case Pipe(l, r) => EndsAreBetweenWords(s, l); EndsAreBetweenWords(s, r);
    case List(l, r) => EndsAreBetweenWords(s, l); EndsAreBetweenWords(s, r);
    case Back(d) => EndsAreBetweenWords(s, d);
  }

  lemma {:induction false} WordReadsBack(s: string, b: seq<char>, ends: set<nat>, w: Span, q: nat)
    requires Terminated(s, b, ends) && BetweenWords(s, ends) && WordSpan(s, w)
    requires w.q <= q <= w.eq && w.eq in ends
    ensures CString(b, q) == s[q..w.eq]
    decreases w.eq - q
  {
    if q == w.eq {
    } else {
      assert IsWordChar(s[q]);
      WordReadsBack(s, b, ends, w, q + 1);
    }
  }

  lemma {:induction false} TreeReadsBack(s: string, b: seq<char>, ends: set<nat>, c: Cmd<Span>)
    requires Terminated(s, b, ends) && BetweenWords(s, ends) && Spans(s, c) && Ends(c) <= ends
    ensures ReadBack(b, c) == Text(s, c)
  {
    match c
    case Exec(argv) =>
      forall i | 0 <= i < |argv| ensures CString(b, argv[i].q) == Texts(s, argv)[i] {
        assert argv[i].eq in Ends(c);
        WordReadsBack(s, b, ends, argv[i], argv[i].q);
      }
    case Redir(d, file, _) =>
      TreeReadsBack(s, b, ends, d);
      WordReadsBack(s, b, ends, file, file.q);
    case Pipe(l, r) => TreeReadsBack(s, b, ends, l); TreeReadsBack(s, b, ends, r);
    case List(l, r) => TreeReadsBack(s, b, ends, l); TreeReadsBack(s, b, ends, r);
    case Back(d) => TreeReadsBack(s, b, ends, d);
  }

  method StrLen(buf: array<char>) returns (n: nat)
    requires '\0' in buf[..]
    ensures n < buf.Length && buf[n] == '\0' && '\0' !in buf[..n]
  {
    n := 0;
    while buf[n] != '\0'
      invariant n < buf.Length && '\0' !in buf[..n] && '\0' in buf[n..]
      decreases buf.Length - n
    {
      assert buf[n..] == [buf[n]] + buf[n + 1..];
      n := n + 1;
    }
  }

  /** `parsecmd`: accepts exactly the texts of the grammar, and leaves a tree whose words, read as C strings from the
      buffer it has written terminators into, are the words of the text. */
  method ParseCmd(buf: array<char>) returns (r: Option<Cmd<Span>>)
    requires '\0' in buf[..]
    modifies buf
    ensures r.Some? <==> ParseText(CString(old(buf[..]), 0)).Some?
    ensures r.Some? ==> ParseText(CString(old(buf[..]), 0)) == Some(ReadBack(buf[..], r.value))
    ensures r.None? ==> buf[..] == old(buf[..])
  {
    var es := StrLen(buf);
    var s := buf[..es];
    WholeCString(buf[..], es, 0);
    assert s[0..] == s && buf[..][0..es] == s;
    var o := ParseLineAt(s, 0);
    if o.Panicked? {
      return None;
    }
    var _, next := Peek(s, o.next, "");
    if next != es {
      return None;
    }
    ghost var none: set<nat> := {};
    NulTerminate(s, o.cmd, buf, none);
    assert none + Ends(o.cmd) == Ends(o.cmd);
    EndsAreBetweenWords(s, o.cmd);
    TreeReadsBack(s, buf[..], Ends(o.cmd), o.cmd);
    return Some(o.cmd);
  }

  lemma {:induction false} WholeCString(b: seq<char>, n: nat, q: nat)
    requires q <= n < |b| && b[n] == '\0' && '\0' !in b[..n]
    ensures CString(b, q) == b[q..n]
    decreases n - q
  {
    if q == n {
    } else {
      assert b[q] in b[..n];
      WholeCString(b, n, q + 1);
    }
  }

  lemma {:induction false} RenderHasNoNul(ts: seq<Token>)
    requires GoodTokens(ts)
    ensures '\0' !in Render(ts)
  {
    if ts == [] {
    } else {
      assert GoodToken(ts[0]);
      RenderHasNoNul(ts[1..]);
      assert '\0' !in RenderToken(ts[0]);
    }
  }

  /** A buffer that holds the text of a well-formed command is parsed to a tree that reads back as the command. */
  method ParseShown(c: Cmd<string>, buf: array<char>) returns (r: Option<Cmd<Span>>)
    requires WellFormed(c) && buf[..] == Show(c) + ['\0']
    modifies buf
    ensures r.Some? && ReadBack(buf[..], r.value) == c
  {
    ghost var text := Show(c);
    PrintIsGood(c, 3);
    RenderHasNoNul(Print(c, 3));
    assert buf[..][|text|] == '\0' && buf[..][..|text|] == text;
    WholeCString(buf[..], |text|, 0);
    RoundTrip(c);
    r := ParseCmd(buf);
  }
}
