/** The pattern matcher of grep.c, against a language defined by cutting the text into pieces. */
module Regex {

  // ---------- what a pattern means ----------

  datatype Item = One(c: char) | Star(c: char)

  /** A pattern without its leading caret: items to match one after the other, and whether the text must then end. */
  datatype Pattern = Pattern(items: seq<Item>, end: bool)

  /** A star belongs to the character before it; a dollar sign stands for the end only as the last character. */
  function Read(re: string): Pattern
    decreases |re|
  {
    if re == "" then Pattern([], false)
    else if |re| >= 2 && re[1] == '*' then
      var p := Read(re[2..]);
      p.(items := [Star(re[0])] + p.items)
    else if re == "$" then Pattern([], true)
    else
      var p := Read(re[1..]);
      p.(items := [One(re[0])] + p.items)
  }

  predicate Fits(c: char, x: char) {
    c == '.' || c == x
  }

  predicate Run(c: char, w: string) {
    forall k :: 0 <= k < |w| ==> Fits(c, w[k])
  }

  predicate Piece(item: Item, w: string) {
    match item
    case One(c) => |w| == 1 && Fits(c, w[0])
    case Star(c) => Run(c, w)
  }

  function Join(ws: seq<string>): string {
    if ws == [] then "" else ws[0] + Join(ws[1..])
  }

  /** The text cut into one piece for each item. */
  predicate Cut(items: seq<Item>, ws: seq<string>, w: string) {
    |ws| == |items| && Join(ws) == w && forall k :: 0 <= k < |items| ==> Piece(items[k], ws[k])
  }

  ghost predicate InLanguage(items: seq<Item>, w: string) {
    exists ws :: Cut(items, ws, w)
  }

  /** A prefix of the text is in the language, the whole text if it must end. */
  ghost predicate Here(p: Pattern, text: string) {
    exists j :: 0 <= j <= |text| && (p.end ==> j == |text|) && InLanguage(p.items, text[..j])
  }

  /** Some part of the text is in the language, from the start of the text after a caret. */
  ghost predicate Matches(re: string, text: string) {
    var caret := re != "" && re[0] == '^';
    var p := Read(if caret then re[1..] else re);
    exists i, j :: 0 <= i <= j <= |text| && (caret ==> i == 0) && (p.end ==> j == |text|)
                   && InLanguage(p.items, text[i..j])
  }

  // ---------- one item at a time ----------

  lemma LanguageNil(w: string)
    ensures InLanguage([], w) <==> w == ""
  {
    if w == "" {
      assert Cut([], [], w);
    }
  }

  lemma LanguageCons(item: Item, items: seq<Item>, w: string, n: nat)
    requires n <= |w| && Piece(item, w[..n]) && InLanguage(items, w[n..])
    ensures InLanguage([item] + items, w)
  {
    var ws :| Cut(items, ws, w[n..]);
    var vs := [w[..n]] + ws;
    assert vs[1..] == ws && Join(vs) == w;
    assert Cut([item] + items, vs, w);
  }

  lemma LanguageHead(item: Item, items: seq<Item>, w: string) returns (n: nat)
    requires InLanguage([item] + items, w)
    ensures n <= |w| && Piece(item, w[..n]) && InLanguage(items, w[n..])
  {
    var all := [item] + items;
    var ws :| Cut(all, ws, w);
    n := |ws[0]|;
    assert w[..n] == ws[0] && w[n..] == Join(ws[1..]);
    forall k | 0 <= k < |items| ensures Piece(items[k], ws[1..][k]) {
      assert all[k + 1] == items[k];
    }
    assert Piece(all[0], ws[0]);
    assert Cut(items, ws[1..], w[n..]);
  }

  lemma HereNil(end: bool, text: string)
    ensures Here(Pattern([], end), text) <==> !end || text == ""
  {
    LanguageNil(text[..0]);
    if Here(Pattern([], end), text) {
      var j :| 0 <= j <= |text| && (end ==> j == |text|) && InLanguage([], text[..j]);
      LanguageNil(text[..j]);
    }
  }

  /** The first item takes a piece, the rest goes on behind it. */
  lemma HereCons(item: Item, p: Pattern, text: string, n: nat)
    requires n <= |text| && Piece(item, text[..n]) && Here(p, text[n..])
    ensures Here(p.(items := [item] + p.items), text)
  {
    var j :| 0 <= j <= |text| - n && (p.end ==> j == |text| - n) && InLanguage(p.items, text[n..][..j]);
    var w := text[..n + j];
    assert w[..n] == text[..n] && w[n..] == text[n..][..j];
    LanguageCons(item, p.items, w, n);
  }

  lemma HereHead(item: Item, p: Pattern, text: string) returns (n: nat)
    requires Here(p.(items := [item] + p.items), text)
    ensures n <= |text| && Piece(item, text[..n]) && Here(p, text[n..])
  {
    var j :| 0 <= j <= |text| && (p.end ==> j == |text|) && InLanguage([item] + p.items, text[..j]);
    n := LanguageHead(item, p.items, text[..j]);
    assert text[..j][..n] == text[..n] && text[..j][n..] == text[n..][..j - n];
  }

  lemma HereOne(c: char, p: Pattern, text: string)
    ensures Here(p.(items := [One(c)] + p.items), text) <==> text != "" && Fits(c, text[0]) && Here(p, text[1..])
  {
    if Here(p.(items := [One(c)] + p.items), text) {
      var n := HereHead(One(c), p, text);
    }
    if text != "" && Fits(c, text[0]) && Here(p, text[1..]) {
      HereCons(One(c), p, text, 1);
    }
  }

  // ---------- the matcher ----------

  predicate NulFree(s: string) {
    forall k :: 0 <= k < |s| ==> s[k] != '\0'
  }

  /** The character at a place of a string that ends in NUL. */
  function At(s: string, k: nat): char {
    if k < |s| then s[k] else '\0'
  }

  method MatchHere(re: string, text: string) returns (yes: bool)
    requires NulFree(re) && NulFree(text)
    ensures yes <==> Here(Read(re), text)
    decreases |re|, 0
  {
    if At(re, 0) == '\0' {
      HereNil(false, text);
      return true;
    }
    if At(re, 1) == '*' {
      yes := MatchStar(re[0], re[2..], text);
      return;
    }
    if At(re, 0) == '$' && At(re, 1) == '\0' {
      HereNil(true, text);
      return At(text, 0) == '\0';
    }
    HereOne(re[0], Read(re[1..]), text);
    if At(text, 0) != '\0' && (re[0] == '.' || re[0] == text[0]) {
      yes := MatchHere(re[1..], text[1..]);
      return;
    }
    return false;
  }

  method MatchStar(c: char, re: string, text: string) returns (yes: bool)
    requires NulFree(re) && NulFree(text)
    ensures yes <==> Here(Read(re).(items := [Star(c)] + Read(re).items), text)
    decreases |re|, 1
  {
    var i := 0;
    while true
      invariant 0 <= i <= |text| && Run(c, text[..i])
      invariant forall k :: 0 <= k < i ==> !Here(Read(re), text[k..])
      decreases |text| - i
    {
      var found := MatchHere(re, text[i..]);
      if found {
        HereCons(Star(c), Read(re), text, i);
        return true;
      }
      if At(text, i) == '\0' || !(text[i] == c || c == '.') {
        NoStar(c, Read(re), text, i);
        return false;
      }
      i := i + 1;
    }
  }

  lemma NoStar(c: char, p: Pattern, text: string, i: nat)
    requires i <= |text| && (i < |text| ==> !Fits(c, text[i]))
    requires forall k :: 0 <= k <= i ==> !Here(p, text[k..])
    ensures !Here(p.(items := [Star(c)] + p.items), text)
  {
    if Here(p.(items := [Star(c)] + p.items), text) {
      var n := HereHead(Star(c), p, text);
    }
  }

  method Match(re: string, text: string) returns (yes: bool)
    requires NulFree(re) && NulFree(text)
    ensures yes <==> Matches(re, text)
  {
    MatchesAt(re, text);
    if At(re, 0) == '^' {
      yes := MatchHere(re[1..], text);
      assert text[0..] == text;
      return;
    }
    var i := 0;
    while true
      invariant 0 <= i <= |text|
      invariant forall k :: 0 <= k < i ==> !Here(Read(re), text[k..])
      decreases |text| - i
    {
      var found := MatchHere(re, text[i..]);
      if found {
        return true;
      }
      if At(text, i) == '\0' {
        return false;
      }
      i := i + 1;
    }
  }

  /** Matching somewhere is matching a prefix of what is left at some place. */
  lemma MatchesAt(re: string, text: string)
    ensures
      var caret := re != "" && re[0] == '^';
      var p := Read(if caret then re[1..] else re);
      Matches(re, text) <==> exists i :: 0 <= i <= |text| && (caret ==> i == 0) && Here(p, text[i..])
  {
    var caret := re != "" && re[0] == '^';
    var p := Read(if caret then re[1..] else re);
    if Matches(re, text) {
      var i, j :| 0 <= i <= j <= |text| && (caret ==> i == 0) && (p.end ==> j == |text|)
                  && InLanguage(p.items, text[i..j]);
      assert text[i..][..j - i] == text[i..j];
    }
    forall i | 0 <= i <= |text| && (caret ==> i == 0) && Here(p, text[i..]) ensures Matches(re, text) {
      var j :| 0 <= j <= |text| - i && (p.end ==> j == |text| - i) && InLanguage(p.items, text[i..][..j]);
      assert text[i..][..j] == text[i..i + j];
    }
  }
}
