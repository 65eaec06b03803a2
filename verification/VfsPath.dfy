/** Path names: the components of a path, folding "." and "..", and the canonical absolute path of vfs_parse_path. */
module VfsPath {
  import opened Common

  const FNAME_MAX := 255

  // ---------- components ----------

  function WordLen(s: string): (n: nat)
    ensures n <= |s|
  {
    if s == "" || s[0] == '/' then 0 else 1 + WordLen(s[1..])
  }

  /** The longest parts without a separator. */
  function Components(s: string): seq<string>
    decreases |s|
  {
    if s == "" then []
    else if s[0] == '/' then Components(s[1..])
    else [s[..WordLen(s)]] + Components(s[WordLen(s)..])
  }

  predicate Name(w: string) {
    w != "" && '/' !in w
  }

  lemma {:induction false} WordLenIs(s: string, n: nat)
    requires n <= |s| && '/' !in s[..n] && (n < |s| ==> s[n] == '/')
    ensures WordLen(s) == n
  {
    if n == 0 {
    } else {
      assert s[1..][..n - 1] == s[1..n] && forall x :: x in s[1..n] ==> x in s[..n];
      WordLenIs(s[1..], n - 1);
    }
  }

  lemma {:induction false} WordHasNoSeparator(s: string)
    ensures '/' !in s[..WordLen(s)] && (WordLen(s) < |s| ==> s[WordLen(s)] == '/')
  {
    if s != "" && s[0] != '/' {
      WordHasNoSeparator(s[1..]);
      assert s[..WordLen(s)] == [s[0]] + s[1..][..WordLen(s[1..])];
    }
  }

  /** Components are names, made of characters of the text. */
  lemma {:induction false} ComponentsAreNames(s: string)
    ensures forall w :: w in Components(s) ==> Name(w) && forall x :: x in w ==> x in s
    decreases |s|
  {
    if s == "" {
    } else if s[0] == '/' {
      ComponentsAreNames(s[1..]);
    } else {
      WordHasNoSeparator(s);
      ComponentsAreNames(s[WordLen(s)..]);
    }
  }

  /** A name and what follows it. */
  lemma NameFirst(w: string, s: string)
    requires Name(w) && (s == "" || s[0] == '/')
    ensures Components(w + s) == [w] + Components(s)
  {
    assert (w + s)[..|w|] == w && (w + s)[|w|..] == s;
    WordLenIs(w + s, |w|);
  }

  lemma FirstWord(s: string) returns (w: string, rest: string)
    requires s != "" && s[0] != '/'
    ensures w == s[..WordLen(s)] && rest == s[|w|..] && s == w + rest && Name(w) && (rest == "" || rest[0] == '/')
    ensures Components(s) == [w] + Components(rest)
  {
    WordHasNoSeparator(s);
    w, rest := s[..WordLen(s)], s[WordLen(s)..];
  }

  /** A separator divides the components. */
  lemma {:induction false} ComponentsDivide(a: string, b: string)
    ensures Components(a + "/" + b) == Components(a) + Components(b)
    decreases |a|
  {
    var s := a + "/" + b;
    if a == "" {
      assert s[1..] == b;
    } else if a[0] == '/' {
      assert s[1..] == a[1..] + "/" + b;
      ComponentsDivide(a[1..], b);
    } else {
      var w, rest := FirstWord(a);
      ComponentsDivide(rest, b);
      assert s == w + (rest + "/" + b);
      NameFirst(w, rest + "/" + b);
    }
  }

  /** Trailing separators add nothing. */
  lemma {:induction false} TrailingSeparators(s: string, k: nat)
    requires k <= |s| && forall i :: k <= i < |s| ==> s[i] == '/'
    ensures Components(s) == Components(s[..k])
    decreases |s| - k
  {
    if k < |s| {
      var t := s[..|s| - 1];
      assert t[..k] == s[..k] && s == t + "/" + "";
      TrailingSeparators(t, k);
      ComponentsDivide(t, "");
    } else {
      assert s[..k] == s;
    }
  }

  /** The buffer holds the text, ended by NUL. */
  ghost predicate Holds(buf: array<char>, t: string)
    reads buf
  {
    |t| < buf.Length && '\0' !in t && buf[|t|] == '\0' && forall i :: 0 <= i < |t| ==> buf[i] == t[i]
  }

  /** Overwrites the separators at the end, down to the start of the buffer at most. */
  method StripEnd(buf: array<char>, s: string) returns (ghost t: string)
    requires Holds(buf, s)
    modifies buf
    ensures Holds(buf, t) && Components(t) == Components(s) && (t == "" || t[|t| - 1] != '/')
  {
    var end := |s|;
    while end > 0 && buf[end - 1] == '/'
      invariant 0 <= end <= |s| && (forall i :: end <= i < |s| ==> s[i] == '/')
      invariant buf[end] == '\0' && forall i :: 0 <= i < end ==> buf[i] == s[i]
    {
      end := end - 1;
      buf[end] := '\0';
    }
    TrailingSeparators(s, end);
    t := s[..end];
    assert forall x :: x in t ==> x in s;
  }

  /** The next word start. */
  method SkipSeparators(buf: array<char>, p: nat, ghost t: string) returns (q: nat)
    requires Holds(buf, t) && p < |t| && t[|t| - 1] != '/'
    ensures p <= q < |t| && t[q] != '/' && Components(t[p..]) == Components(t[q..])
  {
    q := p;
    while buf[q] != '\0' && buf[q] == '/'
      invariant p <= q < |t| && Components(t[p..]) == Components(t[q..])
      decreases |t| - q
    {
      assert t[q..][1..] == t[q + 1..];
      q := q + 1;
    }
  }

  /** The word at a place in the buffer. */
  method GrabTok(buf: array<char>, p: nat, ghost t: string) returns (tok: string)
    requires Holds(buf, t) && p < |t|
    ensures tok == t[p..][..WordLen(t[p..])]
  {
    var len := 0;
    while buf[p + len] != '\0' && buf[p + len] != '/'
      invariant p + len <= |t| && '/' !in t[p..p + len]
      decreases |t| - len
    {
      len := len + 1;
    }
    assert t[p..][..len] == t[p..p + len];
    WordLenIs(t[p..], len);
    tok := buf[p..p + len];
  }

  /** The next word from a place on, and the place behind it. */
  method NextToken(buf: array<char>, p: nat, ghost t: string) returns (tok: string, q: nat)
    requires Holds(buf, t) && p < |t| && t[|t| - 1] != '/'
    ensures p < q <= |t| && Components(t[p..]) == [tok] + Components(t[q..])
  {
    q := SkipSeparators(buf, p, t);
    tok := GrabTok(buf, q, t);
    ghost var w, rest := FirstWord(t[q..]);
    q := q + |tok|;
    assert rest == t[q..];
  }

  /** Splits a text at the separators. */
  method Tokenize(s: string) returns (tokens: seq<string>)
    requires '\0' !in s
    ensures tokens == Components(s)
  {
    var buf := new char[|s| + 1](i requires 0 <= i => if i < |s| then s[i] else '\0');
    ghost var t := StripEnd(buf, s);
    var p := 0;
    tokens := [];
    ghost var left := Components(t);
    assert t[0..] == t;
    while buf[p] != '\0'
      invariant Holds(buf, t) && p <= |t| && left == Components(t[p..]) && Components(s) == tokens + left
      decreases |t| - p
    {
      var tok;
      tok, p := NextToken(buf, p, t);
      tokens, left := tokens + [tok], left[1..];
    }
  }

  // ---------- "." and ".." ----------

  function Step(dir: seq<string>, w: string): seq<string> {
    if w == "." then dir
    else if w == ".." then (if dir == [] then dir else dir[..|dir| - 1])
    else dir + [w]
  }

  /** Where the components lead from a directory; the root is its own parent. */
  function Walk(dir: seq<string>, ws: seq<string>): seq<string> {
    if ws == [] then dir else Step(Walk(dir, ws[..|ws| - 1]), ws[|ws| - 1])
  }

  /** The text of an absolute path, without the form of the root. */
  function Joined(dir: seq<string>): string {
    if dir == [] then "" else Joined(dir[..|dir| - 1]) + "/" + dir[|dir| - 1]
  }

  function PathText(dir: seq<string>): string {
    if dir == [] then "/" else Joined(dir)
  }

  /** A directory given by proper names alone. */
  predicate Plain(dir: seq<string>) {
    forall w :: w in dir ==> Name(w) && w != "." && w != ".."
  }

  lemma {:induction false} WalkAppend(dir: seq<string>, a: seq<string>, b: seq<string>)
    ensures Walk(dir, a + b) == Walk(Walk(dir, a), b)
  {
    if b == [] {
      assert a + b == a;
    } else {
      var n := |b| - 1;
      assert (a + b)[..|a| + n] == a + b[..n];
      WalkAppend(dir, a, b[..n]);
    }
  }

  lemma {:induction false} WalkIsPlain(dir: seq<string>, ws: seq<string>)
    requires Plain(dir) && forall w :: w in ws ==> Name(w)
    ensures Plain(Walk(dir, ws))
    ensures forall w :: w in Walk(dir, ws) ==> w in dir || w in ws
  {
    if ws == [] {
      assert Walk(dir, ws) == dir;
    } else {
      WalkIsPlain(dir, ws[..|ws| - 1]);
      assert forall w :: w in ws[..|ws| - 1] ==> w in ws;
    }
  }

  /** Plain names lead straight down. */
  lemma {:induction false} WalkPlain(dir: seq<string>, ws: seq<string>)
    requires Plain(ws)
    ensures Walk(dir, ws) == dir + ws
  {
    if ws == [] {
    } else {
      var front, last := ws[..|ws| - 1], ws[|ws| - 1];
      assert last in ws && forall w :: w in front ==> w in ws;
      WalkPlain(dir, front);
      assert ws == front + [last];
    }
  }

  lemma {:induction false} ComponentsOfJoined(dir: seq<string>)
    requires Plain(dir)
    ensures Components(Joined(dir)) == dir
  {
    if dir == [] {
    } else {
      var front, w := dir[..|dir| - 1], dir[|dir| - 1];
      assert w in dir && forall x :: x in front ==> x in dir;
      ComponentsOfJoined(front);
      ComponentsDivide(Joined(front), w);
      NameFirst(w, "");
      assert w + "" == w && dir == front + [w];
    }
  }

  /** The text of a path names the directory it was made from. */
  lemma ComponentsOfPathText(dir: seq<string>)
    requires Plain(dir)
    ensures Components(PathText(dir)) == dir
  {
    if dir != [] {
      ComponentsOfJoined(dir);
    }
  }

  // ---------- the whole function ----------

  predicate CString(s: string) {
    forall k :: 0 <= k < |s| ==> '\0' < s[k] < 0x100 as char
  }

  /** Printable bytes other than the backslash; `char` is signed, so bytes from 0x80 on compare below the space. */
  predicate Accepted(s: string) {
    s != "" && forall k :: 0 <= k < |s| ==> ' ' <= s[k] < 0x7f as char && s[k] != '\\'
  }

  function StartDir(path: string, cwd: Option<string>): string
    requires path != ""
  {
    if cwd.None? || path[0] == '/' then "/" else cwd.value
  }

  /** Where a path leads from the directory that `start` leads to from the root. */
  function Target(path: string, start: string): seq<string> {
    Walk(Walk([], Components(start)), Components(path))
  }

  ghost predicate Fits(dir: seq<string>) {
    forall w :: w in dir ==> |w| <= FNAME_MAX
  }

  ghost function Verdict(path: string, cwd: Option<string>): int {
    if !Accepted(path) || !Accepted(StartDir(path, cwd)) then -ENOTNAM
    else if !Fits(Target(path, StartDir(path, cwd))) then -ENAMETOOLONG
    else 0
  }

  /** The buffer is just as long as the text and its NUL. */
  ghost predicate Exactly(buf: array<char>, text: string)
    reads buf
  {
    buf.Length == |text| + 1 && buf[..] == text + ['\0']
  }

  method PathSyntax(path: string) returns (err: int)
    requires CString(path)
    ensures err == if Accepted(path) then 0 else -ENOTNAM
  {
    if path == "" {
      return -ENOTNAM;
    }
    for k := 0 to |path|
      invariant forall i :: 0 <= i < k ==> ' ' <= path[i] < 0x7f as char && path[i] != '\\'
    {
      // as signed bytes: everything from 0x80 on is negative
      var c := if path[k] < 0x80 as char then path[k] as int else path[k] as int - 0x100;
      if c < ' ' as int || path[k] == '\\' || c == 0x7f || c == 0x81 - 0x100 || c == 0x8D - 0x100
         || c == 0x9D - 0x100 || c == 0xA0 - 0x100 || c == 0xAD - 0x100 {
        return -ENOTNAM;
      }
    }
    err := 0;
  }

  /** The first entries of an array of strings ended by null, which is null from there on. */
  ghost predicate Lists(tmp: array<Option<string>>, dir: seq<string>)
    reads tmp
  {
    && |dir| < tmp.Length && (forall k :: 0 <= k < |dir| ==> tmp[k] == Some(dir[k]))
    && forall k :: |dir| <= k < tmp.Length ==> tmp[k] == None
  }

  lemma WalkNext(tokens: seq<string>, t: nat)
    requires t < |tokens|
    ensures Walk([], tokens[..t + 1]) == Step(Walk([], tokens[..t]), tokens[t])
  {
    assert tokens[..t + 1][..t] == tokens[..t];
  }

  /** How a step changes the length of the text. */
  lemma JoinedStep(dir: seq<string>, w: string)
    ensures |Joined(Step(dir, w))| == |Joined(dir)|
              + (if w == "." then 0
                 else if w == ".." then (if dir == [] then 0 else -|dir[|dir| - 1]| - 1)
                 else |w| + 1)
  {
  }

  /** Pushes a name, or pops for "..". */
  method FoldOne(tmp: array<Option<string>>, i: nat, token: string, pathlen: nat, ghost dir: seq<string>)
      returns (i': nat, pathlen': nat)
    requires Lists(tmp, dir) && i == |dir| && i + 1 < tmp.Length && pathlen == |Joined(dir)| + 1
    modifies tmp
    ensures Lists(tmp, Step(dir, token)) && i' == |Step(dir, token)| && pathlen' == |Joined(Step(dir, token))| + 1
  {
    JoinedStep(dir, token);
    i', pathlen' := i, pathlen;
    if token == "." {
    } else if token == ".." {
      if i > 0 {
        i' := i - 1;
        assert tmp[i'] == Some(dir[i']);
        pathlen' := pathlen - (|tmp[i'].value| + 1);
        tmp[i'] := None;
      }
    } else {
      tmp[i] := Some(token);
      i' := i + 1;
      pathlen' := pathlen + |token| + 1;
    }
  }

  /** Folds the tokens, keeping the length of the text, its NUL included. */
  method Fold(tokens: seq<string>, tmp: array<Option<string>>) returns (pathlen: nat)
    requires tmp.Length == |tokens| + 1 && Lists(tmp, [])
    modifies tmp
    ensures Lists(tmp, Walk([], tokens)) && pathlen == |Joined(Walk([], tokens))| + 1
  {
    var i := 0;
    pathlen := 1;
    ghost var dir: seq<string> := [];
    for t := 0 to |tokens|
      invariant dir == Walk([], tokens[..t]) && i == |dir| <= t
      invariant Lists(tmp, dir) && pathlen == |Joined(dir)| + 1
    {
      i, pathlen := FoldOne(tmp, i, tokens[t], pathlen, dir);
      WalkNext(tokens, t);
      dir := Step(dir, tokens[t]);
    }
    assert tokens[..|tokens|] == tokens;
  }

  lemma {:induction false} JoinedPrefix(dir: seq<string>, k: nat)
    requires k <= |dir|
    ensures |Joined(dir[..k])| <= |Joined(dir)|
    decreases |dir|
  {
    if k < |dir| {
      assert dir[..|dir| - 1][..k] == dir[..k];
      JoinedPrefix(dir[..|dir| - 1], k);
    } else {
      assert dir[..k] == dir;
    }
  }

  lemma JoinedNext(dir: seq<string>, k: nat)
    requires k < |dir|
    ensures Joined(dir[..k + 1]) == Joined(dir[..k]) + "/" + dir[k]
    ensures |Joined(dir[..k + 1])| <= |Joined(dir)| && dir[k] in dir
    ensures Fits(dir[..k + 1]) <==> Fits(dir[..k]) && |dir[k]| <= FNAME_MAX
  {
    JoinedPrefix(dir, k + 1);
    assert dir[..k + 1] == dir[..k] + [dir[k]];
  }

  ghost predicate Written(buf: array<char>, text: string)
    reads buf
  {
    |text| <= buf.Length && forall i :: 0 <= i < |text| ==> buf[i] == text[i]
  }

  /** Copies a text behind what is written. */
  method Put(buf: array<char>, j: nat, token: string, ghost text: string)
    requires Written(buf, text) && j == |text| && j + |token| <= buf.Length
    modifies buf
    ensures Written(buf, text + token)
  {
    for n := 0 to |token|
      invariant Written(buf, text + token[..n])
    {
      buf[j + n] := token[n];
    }
    assert token[..|token|] == token;
  }

  /** Writes a separator and a name for each entry, until one is too long. */
  method Write(tmp: array<Option<string>>, ghost dir: seq<string>, buf: array<char>) returns (err: int, j: nat)
    requires Lists(tmp, dir) && |Joined(dir)| < buf.Length
    modifies buf
    ensures err == if Fits(dir) then 0 else -ENAMETOOLONG
    ensures err == 0 ==> j == |Joined(dir)| && Written(buf, Joined(dir))
  {
    var k := 0;
    j := 0;
    while tmp[k].Some?
      invariant 0 <= k <= |dir| && Lists(tmp, dir) && Fits(dir[..k])
      invariant j == |Joined(dir[..k])| <= |Joined(dir)| && Written(buf, Joined(dir[..k]))
      decreases |dir| - k
    {
      var token := tmp[k].value;
      ghost var done := Joined(dir[..k]);
      JoinedNext(dir, k);
      buf[j] := '/';
      j := j + 1;
      if |token| > FNAME_MAX {
        return -ENAMETOOLONG, j;
      }
      Put(buf, j, token, done + "/");
      j := j + |token|;
      k := k + 1;
    }
    assert dir[..k] == dir;
    err := 0;
  }

  /** Allocates the text and writes it. */
  method Render(tmp: array<Option<string>>, ghost dir: seq<string>, pathlen: nat) returns (err: int, text: array<char>)
    requires Lists(tmp, dir) && pathlen == |Joined(dir)| + 1 && Plain(dir)
    ensures err == if Fits(dir) then 0 else -ENAMETOOLONG
    ensures err == 0 ==> Exactly(text, PathText(dir))
  {
    text := new char[if pathlen == 1 then 2 else pathlen];
    var j;
    err, j := Write(tmp, dir, text);
    if err != 0 {
      return;
    }
    text[j] := '\0';
    JoinedStarts(dir);
    if text[0] == '\0' {
      text[j] := '/';
      j := j + 1;
    }
    text[j] := '\0';
  }

  lemma {:induction false} JoinedStarts(dir: seq<string>)
    ensures dir != [] ==> Joined(dir) != "" && Joined(dir)[0] == '/'
    ensures dir == [] <==> |Joined(dir)| == 0
  {
    if dir == [] {
    } else {
      JoinedStarts(dir[..|dir| - 1]);
    }
  }

  method ParsePath(path: string, cwd: Option<string>) returns (err: int, text: array<char>)
    requires CString(path) && (cwd.Some? ==> CString(cwd.value))
    ensures err == Verdict(path, cwd)
    ensures err == 0 ==> Exactly(text, PathText(Target(path, StartDir(path, cwd))))
  {
    text := new char[0];
    err := PathSyntax(path);
    if err != 0 {
      return;
    }
    var start := if cwd.None? || path[0] == '/' then "/" else cwd.value;
    err := PathSyntax(start);
    if err != 0 {
      return;
    }
    var abs := if start[0] != '/' then "/" + start else start;
    var tokens := Tokenize(abs + "/" + path);
    TokensLead(start, abs, path);
    TargetIsPlain(path, start);
    var tmp := new Option<string>[|tokens| + 1](_ => None);
    var pathlen := Fold(tokens, tmp);
    err, text := Render(tmp, Target(path, start), pathlen);
  }

  /** The components of the combined text lead where the path leads from the start. */
  lemma TokensLead(start: string, abs: string, path: string)
    requires start != "" && abs == if start[0] != '/' then "/" + start else start
    ensures Walk([], Components(abs + "/" + path)) == Target(path, start)
  {
    ComponentsDivide(abs, path);
    WalkAppend([], Components(abs), Components(path));
    assert start[0] != '/' ==> abs[1..] == start;
  }

  // ---------- what canonical paths are ----------

  lemma TargetIsPlain(path: string, start: string)
    ensures Plain(Target(path, start))
    ensures forall w, x :: w in Target(path, start) && x in w ==> x in start || x in path
  {
    ComponentsAreNames(start);
    ComponentsAreNames(path);
    WalkIsPlain([], Components(start));
    WalkIsPlain(Walk([], Components(start)), Components(path));
  }

  lemma {:induction false} AcceptedJoined(dir: seq<string>)
    requires dir != [] && forall w :: w in dir ==> Accepted(w)
    ensures Accepted(Joined(dir)) && Joined(dir)[0] == '/'
  {
    var front := dir[..|dir| - 1];
    if front != [] {
      AcceptedJoined(front);
    }
    assert Accepted(dir[|dir| - 1]);
  }

  lemma AcceptedNames(s: string, w: string)
    requires Accepted(s) && w != "" && forall x :: x in w ==> x in s || x == '/'
    ensures Accepted(w)
  {
    forall k | 0 <= k < |w| ensures ' ' <= w[k] < 0x7f as char && w[k] != '\\' {
      assert w[k] in w;
    }
  }

  /** A canonical path is absolute, made of accepted bytes, and names its directory by plain names alone. */
  lemma Canonical(path: string, start: string)
    requires Accepted(path) && Accepted(start)
    ensures
      var dir := Target(path, start);
      && Plain(dir) && Components(PathText(dir)) == dir && Accepted(PathText(dir)) && PathText(dir)[0] == '/'
  {
    var dir := Target(path, start);
    TargetIsPlain(path, start);
    ComponentsOfPathText(dir);
    if dir != [] {
      forall w | w in dir ensures Accepted(w) {
        AcceptedNames(start + path, w);
      }
      AcceptedJoined(dir);
    }
  }

  /** Parsing a canonical path again changes nothing, from any working directory. */
  lemma Idempotent(path: string, cwd: Option<string>, cwd': Option<string>)
    requires Verdict(path, cwd) == 0
    ensures
      var text := PathText(Target(path, StartDir(path, cwd)));
      Verdict(text, cwd') == 0 && PathText(Target(text, StartDir(text, cwd'))) == text
  {
    var dir := Target(path, StartDir(path, cwd));
    var text := PathText(dir);
    Canonical(path, StartDir(path, cwd));
    Reparsed(dir);
    assert StartDir(text, cwd') == "/";
  }

  lemma Reparsed(dir: seq<string>)
    requires Plain(dir)
    ensures Target(PathText(dir), "/") == dir
  {
    TargetOfAbsolute(PathText(dir));
    ComponentsOfPathText(dir);
    WalkPlain([], dir);
    assert [] + dir == dir;
  }

  lemma TargetOfAbsolute(path: string)
    ensures Target(path, "/") == Walk([], Components(path))
  {
  }
}
