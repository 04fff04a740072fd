/**
 * The five chat routes of the handler (lib/lita/handlers/confirmation.rb:14-29) as a
 * recogniser from a command body to the routes it fires.
 *
 * Each route is a Ruby regular expression with the `i` flag. In Ruby `^` and `$` are
 * LINE anchors (start of the string or just after a line feed; end of the string or
 * just before a line feed) and `\s` also matches a line feed, so a route fires when
 * its pattern matches starting at the beginning of some line of the body, and the
 * captures are those of the leftmost such match. Every route whose pattern matches
 * fires, in the order the routes are declared.
 *
 * The regular expressions are written in a small pattern language. `Match` is a
 * greedy matcher that never backtracks; `Derives` is the relational meaning of a
 * pattern, which chooses the length of every repetition freely, as a backtracking
 * matcher may. For patterns in which no repetition can be shortened or lengthened
 * (`Deterministic`), the two agree exactly (`MatchComplete` with `Match`'s contract).
 */
module Routes {
  import opened Wrappers

  /** Ruby's `\s`: space, tab, line feed, vertical tab, form feed, carriage return. */
  predicate IsSpace(c: char)
    ensures IsSpace(c) ==> Fold(c) == c && !InClass(Hex, c) && !InClass(Digit, c)
  {
    c == ' ' || c == '\t' || c == '\n' || c == '\U{000B}' || c == '\U{000C}' || c == '\r'
  }

  /** Case folding of ASCII letters, which is what the `i` flag does to this text. */
  function Fold(c: char): (d: char)
    ensures 'A' <= c <= 'Z' ==> 'a' <= d <= 'z' && d as int == c as int + 32
    ensures !('A' <= c <= 'Z') ==> d == c
  {
    if 'A' <= c <= 'Z' then (c as int + 32) as char else c
  }

  /** The two bracketed classes, `[a-f0-9]` and `[0-9]`, under the `i` flag. */
  datatype Class = Hex | Digit

  predicate InClass(cls: Class, c: char)
  {
    match cls
    case Hex => '0' <= c <= '9' || 'a' <= Fold(c) <= 'f'
    case Digit => '0' <= c <= '9'
  }

  /** The constructs the routes use. `Chars` and `NonSpaces` are capture groups. */
  datatype Atom =
    | Lit(text: string)             // a literal word, matched case-insensitively
    | Spaces                        // \s+
    | Chars(cls: Class, count: nat) // ([...]{count})
    | NonSpaces                     // (\S+)
    | Eol                           // $

  type Pattern = seq<Atom>

  /** `s[p..]` starts with the lower-case word `t`, up to case. */
  predicate LitAt(t: string, s: string, p: nat)
  {
    p + |t| <= |s| && forall k :: 0 <= k < |t| ==> Fold(s[p + k]) == t[k]
  }

  /** `c` is `l` or, when `l` is a lower-case letter, the matching upper-case letter. */
  predicate SameUpToCase(c: char, l: char)
  {
    c == l || ('a' <= l <= 'z' && c as int == l as int - 32)
  }

  lemma FoldMatches(c: char, l: char)
    requires !('A' <= l <= 'Z')
    ensures Fold(c) == l <==> SameUpToCase(c, l)
  {
  }

  /** With the `i` flag a lower-case word matches the same word in any mix of cases. */
  lemma LitAtCaseless(t: string, s: string, p: nat)
    requires forall k :: 0 <= k < |t| ==> !('A' <= t[k] <= 'Z')
    ensures LitAt(t, s, p) <==> p + |t| <= |s| && forall k :: 0 <= k < |t| ==> SameUpToCase(s[p + k], t[k])
  {
    forall k | 0 <= k < |t| && p + k < |s|
      ensures Fold(s[p + k]) == t[k] <==> SameUpToCase(s[p + k], t[k])
    {
      FoldMatches(s[p + k], t[k]);
    }
  }

  /** With the `i` flag, `[a-f0-9]` also takes the upper-case letters `A` to `F`. */
  lemma HexCaseless(c: char)
    ensures InClass(Hex, c) <==> '0' <= c <= '9' || 'a' <= c <= 'f' || 'A' <= c <= 'F'
  {
  }

  /** `s[p..p + n]` exists and lies in class `cls`. */
  predicate ClassRun(cls: Class, s: string, p: nat, n: nat)
  {
    p + n <= |s| && forall k :: p <= k < p + n ==> InClass(cls, s[k])
  }

  /** Every character of `s[p..e]` is whitespace (`space`) or every one is not. */
  predicate Uniform(s: string, p: nat, e: nat, space: bool)
    requires p <= e <= |s|
  {
    forall k :: p <= k < e ==> IsSpace(s[k]) == space
  }

  /** Ruby's `$`. */
  predicate EndOfLine(s: string, p: nat)
  {
    p == |s| || (p < |s| && s[p] == '\n')
  }

  /** On a message of one line, `^` holds only at its start and `$` only at its end. */
  lemma AnchorsOnOneLine(s: string, p: nat)
    requires '\n' !in s && p <= |s|
    ensures LineStart(s, p) <==> p == 0
    ensures EndOfLine(s, p) <==> p == |s|
  {
    if 0 < p < |s| {
      assert s[p - 1] in s;
    }
    if p < |s| {
      assert s[p] in s;
    }
  }

  /** Ruby's `^`: the start of the string, or just after a line feed that does not end it. */
  predicate LineStart(s: string, p: nat)
  {
    p == 0 || (0 < p < |s| && s[p - 1] == '\n')
  }

  /** Where the longest run of whitespace (or of non-whitespace) starting at `p` ends. */
  function RunEnd(s: string, p: nat, space: bool): (e: nat)
    requires p <= |s|
    ensures p <= e <= |s|
    ensures Uniform(s, p, e, space)
    ensures e < |s| ==> IsSpace(s[e]) != space
    decreases |s| - p
  {
    if p == |s| || IsSpace(s[p]) != space then p else RunEnd(s, p + 1, space)
  }

  function Capture(x: string, rest: Option<seq<string>>): Option<seq<string>>
  {
    match rest
    case None => None
    case Some(caps) => Some([x] + caps)
  }

  /**
   * The relational meaning of `pat[i..]` at position `p` of `s`: some choice of
   * repetition lengths consumes the text so that `caps` are its captures.
   */
  ghost predicate Derives(pat: Pattern, i: nat, s: string, p: nat, caps: seq<string>)
    requires i <= |pat| && p <= |s|
    decreases |pat| - i
  {
    if i == |pat| then caps == []
    else
      match pat[i]
      case Lit(t) => LitAt(t, s, p) && Derives(pat, i + 1, s, p + |t|, caps)
      case Spaces =>
        exists e: nat :: p < e <= |s| && Uniform(s, p, e, true) && Derives(pat, i + 1, s, e, caps)
      case Chars(cls, n) =>
        ClassRun(cls, s, p, n) && caps != [] && caps[0] == s[p..p + n] && Derives(pat, i + 1, s, p + n, caps[1..])
      case NonSpaces =>
        caps != [] &&
        exists e: nat :: p < e <= |s| && Uniform(s, p, e, false) && caps[0] == s[p..e] && Derives(pat, i + 1, s, e, caps[1..])
      case Eol => EndOfLine(s, p) && Derives(pat, i + 1, s, p, caps)
  }

  /** The number of capture groups in `pat[i..]`. */
  function Groups(pat: Pattern, i: nat): nat
    requires i <= |pat|
    decreases |pat| - i
  {
    if i == |pat| then 0 else (if pat[i].Chars? || pat[i].NonSpaces? then 1 else 0) + Groups(pat, i + 1)
  }

  /** The greedy matcher: every repetition takes the longest run it can. */
  function Match(pat: Pattern, i: nat, s: string, p: nat): (r: Option<seq<string>>)
    requires i <= |pat| && p <= |s|
    ensures r.Some? ==> |r.value| == Groups(pat, i)
    decreases |pat| - i
  {
    if i == |pat| then Some([])
    else
      match pat[i]
      case Lit(t) => if LitAt(t, s, p) then Match(pat, i + 1, s, p + |t|) else None
      case Spaces => if p < |s| && IsSpace(s[p]) then Match(pat, i + 1, s, RunEnd(s, p, true)) else None
      case Chars(cls, n) => if ClassRun(cls, s, p, n) then Capture(s[p..p + n], Match(pat, i + 1, s, p + n)) else None
      case NonSpaces =>
        if p < |s| && !IsSpace(s[p]) then
          var e := RunEnd(s, p, false);
          Capture(s[p..e], Match(pat, i + 1, s, e))
        else None
      case Eol => if EndOfLine(s, p) then Match(pat, i + 1, s, p) else None
  }

  /** What the greedy matcher returns is always a derivation of the pattern. */
  lemma {:induction false} MatchSound(pat: Pattern, i: nat, s: string, p: nat)
    requires i <= |pat| && p <= |s|
    ensures Match(pat, i, s, p).Some? ==> Derives(pat, i, s, p, Match(pat, i, s, p).value)
    decreases |pat| - i
  {
    if i < |pat| {
      match pat[i]
      case Lit(t) =>
        if LitAt(t, s, p) {
          MatchSound(pat, i + 1, s, p + |t|);
        }
      case Spaces =>
        if p < |s| && IsSpace(s[p]) {
          MatchSound(pat, i + 1, s, RunEnd(s, p, true));
        }
      case Chars(cls, n) =>
        if ClassRun(cls, s, p, n) {
          MatchSound(pat, i + 1, s, p + n);
        }
      case NonSpaces =>
        if p < |s| && !IsSpace(s[p]) {
          MatchSound(pat, i + 1, s, RunEnd(s, p, false));
        }
      case Eol =>
        if EndOfLine(s, p) {
          MatchSound(pat, i + 1, s, p);
        }
    }
  }

  /** An atom that can only begin at a non-whitespace character. */
  predicate Solid(a: Atom)
  {
    match a
    case Lit(t) => t != [] && !IsSpace(t[0])
    case Chars(_, n) => n > 0
    case NonSpaces => true
    case _ => false
  }

  /**
   * No repetition can be cut short or extended: `\s+` is followed by something that
   * starts with a non-whitespace character, `\S+` by `$` or `\s+`.
   */
  predicate Deterministic(pat: Pattern)
  {
    forall i :: 0 <= i < |pat| ==>
      && (pat[i].Spaces? ==> i + 1 < |pat| && Solid(pat[i + 1]))
      && (pat[i].NonSpaces? ==> i + 1 < |pat| && (pat[i + 1].Eol? || pat[i + 1].Spaces?))
  }

  lemma SolidStart(pat: Pattern, i: nat, s: string, p: nat, caps: seq<string>)
    requires i < |pat| && p <= |s| && Solid(pat[i]) && Derives(pat, i, s, p, caps)
    ensures p < |s| && !IsSpace(s[p])
  {
    match pat[i]
    case Lit(t) => assert Fold(s[p + 0]) == t[0];
    case Chars(cls, n) => assert InClass(cls, s[p]);
    case NonSpaces =>
  }

  /** A run of whitespace (or not) that ends where the other kind begins is the longest one. */
  lemma LongestRun(s: string, p: nat, e: nat, space: bool)
    requires p < e <= |s| && Uniform(s, p, e, space)
    requires e == |s| || IsSpace(s[e]) != space
    ensures e == RunEnd(s, p, space)
  {
  }

  /** For deterministic patterns the greedy matcher finds every derivation. */
  lemma {:induction false} MatchComplete(pat: Pattern, i: nat, s: string, p: nat, caps: seq<string>)
    requires Deterministic(pat) && i <= |pat| && p <= |s|
    requires Derives(pat, i, s, p, caps)
    ensures Match(pat, i, s, p) == Some(caps)
    decreases |pat| - i
  {
    if i < |pat| {
      match pat[i]
      case Lit(t) =>
        MatchComplete(pat, i + 1, s, p + |t|, caps);
      case Spaces =>
        var e: nat :| p < e <= |s| && Uniform(s, p, e, true) && Derives(pat, i + 1, s, e, caps);
        SolidStart(pat, i + 1, s, e, caps);
        LongestRun(s, p, e, true);
        MatchComplete(pat, i + 1, s, e, caps);
      case Chars(cls, n) =>
        MatchComplete(pat, i + 1, s, p + n, caps[1..]);
        assert caps == [caps[0]] + caps[1..];
      case NonSpaces =>
        var e: nat :| p < e <= |s| && Uniform(s, p, e, false) && caps[0] == s[p..e] && Derives(pat, i + 1, s, e, caps[1..]);
        assert i + 1 < |pat| && (pat[i + 1].Eol? || pat[i + 1].Spaces?);
        assert e == |s| || IsSpace(s[e]) by {
          if pat[i + 1].Spaces? {
            var e': nat :| e < e' <= |s| && Uniform(s, e, e', true) && Derives(pat, i + 2, s, e', caps[1..]);
            assert IsSpace(s[e]);
          }
        }
        LongestRun(s, p, e, false);
        MatchComplete(pat, i + 1, s, e, caps[1..]);
        assert caps == [caps[0]] + caps[1..];
      case Eol =>
        MatchComplete(pat, i + 1, s, p, caps);
    }
  }

  /** A deterministic pattern has at most one derivation at a position. */
  lemma DerivationUnique(pat: Pattern, s: string, p: nat, caps: seq<string>, caps': seq<string>)
    requires Deterministic(pat) && p <= |s|
    requires Derives(pat, 0, s, p, caps) && Derives(pat, 0, s, p, caps')
    ensures caps == caps'
  {
    MatchComplete(pat, 0, s, p, caps);
    MatchComplete(pat, 0, s, p, caps');
  }

  /** The pattern, anchored by `^`, matches at line start `q` with captures `caps`. */
  ghost predicate MatchesAt(pat: Pattern, s: string, q: nat, caps: seq<string>)
  {
    q <= |s| && LineStart(s, q) && Derives(pat, 0, s, q, caps)
  }

  /** `q` is the leftmost position from `p` on where the pattern matches. */
  ghost predicate LeftmostFrom(pat: Pattern, s: string, p: nat, q: nat, caps: seq<string>)
  {
    p <= q && MatchesAt(pat, s, q, caps) && forall q': nat, c :: p <= q' < q ==> !MatchesAt(pat, s, q', c)
  }

  /** Scan the line starts from `p` on and return the captures of the first match. */
  function FindFrom(pat: Pattern, s: string, p: nat): (r: Option<seq<string>>)
    requires p <= |s|
    ensures r.Some? ==> exists q: nat :: p <= q <= |s| && LineStart(s, q) && Match(pat, 0, s, q) == r
    decreases |s| - p
  {
    if LineStart(s, p) && Match(pat, 0, s, p).Some? then
      Match(pat, 0, s, p)
    else if p == |s| then None
    else FindFrom(pat, s, p + 1)
  }

  /** The scan returns exactly the captures of the leftmost match (Ruby's `scan(...)[0]`). */
  lemma {:induction false} FindFromIsLeftmost(pat: Pattern, s: string, p: nat, caps: seq<string>)
    requires Deterministic(pat) && p <= |s|
    ensures FindFrom(pat, s, p) == Some(caps) <==> exists q: nat :: LeftmostFrom(pat, s, p, q, caps)
    decreases |s| - p
  {
    if LineStart(s, p) && Match(pat, 0, s, p).Some? {
      var c0 := Match(pat, 0, s, p).value;
      MatchSound(pat, 0, s, p);
      assert LeftmostFrom(pat, s, p, p, c0);
      if q: nat :| LeftmostFrom(pat, s, p, q, caps) {
        assert q == p;
        MatchComplete(pat, 0, s, p, caps);
      }
    } else {
      assert forall c :: !MatchesAt(pat, s, p, c) by {
        forall c | MatchesAt(pat, s, p, c) ensures false {
          MatchComplete(pat, 0, s, p, c);
        }
      }
      if p < |s| {
        var next := p + 1;
        FindFromIsLeftmost(pat, s, next, caps);
        if q: nat :| LeftmostFrom(pat, s, p, q, caps) {
          assert q != p;
          assert LeftmostFrom(pat, s, next, q, caps);
        }
        if q: nat :| LeftmostFrom(pat, s, next, q, caps) {
          assert LeftmostFrom(pat, s, p, q, caps);
        }
      } else {
        assert forall q: nat :: LeftmostFrom(pat, s, p, q, caps) ==> q == p;
      }
    }
  }

  // The five routes, in the order the handler declares them.

  const ConfirmPattern: Pattern := [Lit("confirm"), Spaces, Chars(Hex, 6), Eol]
  const TotpConfirmPattern: Pattern := [Lit("confirm"), Spaces, Chars(Hex, 6), Spaces, Chars(Digit, 6), Eol]
  const EnrollPattern: Pattern := [Lit("confirm"), Spaces, Lit("2fa"), Spaces, Lit("enroll"), Eol]
  const RemoveSelfPattern: Pattern := [Lit("confirm"), Spaces, Lit("2fa"), Spaces, Lit("remove"), Eol]
  const RemovePattern: Pattern := [Lit("confirm"), Spaces, Lit("2fa"), Spaces, Lit("remove"), Spaces, NonSpaces, Eol]

  datatype Route = ConfirmRoute | TotpConfirmRoute | EnrollRoute | RemoveSelfRoute | RemoveRoute

  function PatternOf(route: Route): Pattern
  {
    match route
    case ConfirmRoute => ConfirmPattern
    case TotpConfirmRoute => TotpConfirmPattern
    case EnrollRoute => EnrollPattern
    case RemoveSelfRoute => RemoveSelfPattern
    case RemoveRoute => RemovePattern
  }

  /** A fired route with its captures: the handler method it calls and its arguments. */
  datatype Command =
    | Confirm(code: string)
    | TotpConfirm(code: string, otp: string)
    | Enroll
    | RemoveSelf
    | Remove(mention: string)

  /** The route a command comes from, numbered in declaration order. */
  function RouteIndex(c: Command): nat
  {
    match c
    case Confirm(_) => 0
    case TotpConfirm(_, _) => 1
    case Enroll => 2
    case RemoveSelf => 3
    case Remove(_) => 4
  }

  function Index(route: Route): nat
  {
    match route
    case ConfirmRoute => 0
    case TotpConfirmRoute => 1
    case EnrollRoute => 2
    case RemoveSelfRoute => 3
    case RemoveRoute => 4
  }

  /** Six hexadecimal digits, of either case. */
  predicate ValidCode(code: string)
  {
    |code| == 6 && forall k :: 0 <= k < 6 ==> InClass(Hex, code[k])
  }

  /** Six decimal digits. */
  predicate ValidOtp(otp: string)
  {
    |otp| == 6 && forall k :: 0 <= k < 6 ==> InClass(Digit, otp[k])
  }

  /** One or more characters, none of them whitespace. */
  predicate ValidMention(mention: string)
  {
    |mention| > 0 && forall k :: 0 <= k < |mention| ==> !IsSpace(mention[k])
  }

  predicate ValidCommand(c: Command)
  {
    match c
    case Confirm(code) => ValidCode(code)
    case TotpConfirm(code, otp) => ValidCode(code) && ValidOtp(otp)
    case Remove(mention) => ValidMention(mention)
    case _ => true
  }

  /** `s[p..e]` is a longest non-empty run of whitespace (`space`) or of non-whitespace. */
  predicate MaximalRun(s: string, p: nat, e: nat, space: bool)
  {
    p < e <= |s| && Uniform(s, p, e, space) && (e == |s| || IsSpace(s[e]) != space)
  }

  lemma MaximalRunUnique(s: string, p: nat, e: nat, e': nat, space: bool)
    requires MaximalRun(s, p, e, space) && MaximalRun(s, p, e', space)
    ensures e == e'
  {
    LongestRun(s, p, e, space);
    LongestRun(s, p, e', space);
  }

  // One step of a successful greedy match, one lemma per kind of atom.

  lemma StepLit(pat: Pattern, i: nat, s: string, p: nat, caps: seq<string>)
    requires i < |pat| && pat[i].Lit? && p <= |s| && Match(pat, i, s, p) == Some(caps)
    ensures LitAt(pat[i].text, s, p) && Match(pat, i + 1, s, p + |pat[i].text|) == Some(caps)
  {
  }

  lemma StepSpaces(pat: Pattern, i: nat, s: string, p: nat, caps: seq<string>) returns (e: nat)
    requires i < |pat| && pat[i].Spaces? && p <= |s| && Match(pat, i, s, p) == Some(caps)
    ensures MaximalRun(s, p, e, true) && Match(pat, i + 1, s, e) == Some(caps)
  {
    e := RunEnd(s, p, true);
  }

  lemma StepChars(pat: Pattern, i: nat, s: string, p: nat, caps: seq<string>)
    requires i < |pat| && pat[i].Chars? && p <= |s| && Match(pat, i, s, p) == Some(caps)
    ensures var n := pat[i].count;
            && ClassRun(pat[i].cls, s, p, n) && caps != [] && caps[0] == s[p..p + n]
            && Match(pat, i + 1, s, p + n) == Some(caps[1..])
  {
  }

  lemma StepNonSpaces(pat: Pattern, i: nat, s: string, p: nat, caps: seq<string>) returns (e: nat)
    requires i < |pat| && pat[i].NonSpaces? && p <= |s| && Match(pat, i, s, p) == Some(caps)
    ensures MaximalRun(s, p, e, false) && caps != [] && caps[0] == s[p..e]
    ensures Match(pat, i + 1, s, e) == Some(caps[1..])
  {
    e := RunEnd(s, p, false);
  }

  lemma StepEol(pat: Pattern, i: nat, s: string, p: nat, caps: seq<string>)
    requires i < |pat| && pat[i].Eol? && p <= |s| && Match(pat, i, s, p) == Some(caps)
    ensures EndOfLine(s, p) && Match(pat, i + 1, s, p) == Some(caps)
  {
  }

  lemma StepEnd(pat: Pattern, s: string, p: nat, caps: seq<string>)
    requires p <= |s| && Match(pat, |pat|, s, p) == Some(caps)
    ensures caps == []
  {
  }

  /** The common prefix `confirm\s+([a-f0-9]{6})` of the first two routes; `e` is where the code starts. */
  lemma CodePrefix(pat: Pattern, s: string, p: nat, caps: seq<string>) returns (e: nat)
    requires |pat| > 3 && pat[0] == Lit("confirm") && pat[1] == Spaces && pat[2] == Chars(Hex, 6)
    requires p <= |s| && Match(pat, 0, s, p) == Some(caps)
    ensures LitAt("confirm", s, p) && MaximalRun(s, p + 7, e, true)
    ensures ClassRun(Hex, s, e, 6) && caps != [] && caps[0] == s[e..e + 6]
    ensures Match(pat, 3, s, e + 6) == Some(caps[1..])
  {
    StepLit(pat, 0, s, p, caps);
    e := StepSpaces(pat, 1, s, p + 7, caps);
    StepChars(pat, 2, s, e, caps);
  }

  /** The tail `\s+([0-9]{6})$` of the second route. */
  lemma OtpSuffix(pat: Pattern, s: string, p: nat, caps: seq<string>) returns (f: nat)
    requires |pat| == 6 && pat[3] == Spaces && pat[4] == Chars(Digit, 6) && pat[5] == Eol
    requires p <= |s| && Match(pat, 3, s, p) == Some(caps)
    ensures MaximalRun(s, p, f, true) && ClassRun(Digit, s, f, 6) && EndOfLine(s, f + 6)
    ensures caps == [s[f..f + 6]]
  {
    f := StepSpaces(pat, 3, s, p, caps);
    StepChars(pat, 4, s, f, caps);
    StepEol(pat, 5, s, f + 6, caps[1..]);
    StepEnd(pat, s, f + 6, caps[1..]);
    assert caps == [caps[0]];
  }

  /** The common prefix `confirm\s+2fa\s+` of the last three routes; `f` is where it ends. */
  lemma TwoFactorPrefix(pat: Pattern, s: string, p: nat, caps: seq<string>) returns (e: nat, f: nat)
    requires |pat| > 4 && pat[0] == Lit("confirm") && pat[1] == Spaces && pat[2] == Lit("2fa") && pat[3] == Spaces
    requires p <= |s| && Match(pat, 0, s, p) == Some(caps)
    ensures LitAt("confirm", s, p) && MaximalRun(s, p + 7, e, true)
    ensures LitAt("2fa", s, e) && MaximalRun(s, e + 3, f, true)
    ensures Match(pat, 4, s, f) == Some(caps)
  {
    StepLit(pat, 0, s, p, caps);
    e := StepSpaces(pat, 1, s, p + 7, caps);
    StepLit(pat, 2, s, e, caps);
    f := StepSpaces(pat, 3, s, e + 3, caps);
  }

  /** The tail `enroll$` or `remove$` of the third and fourth routes. */
  lemma WordSuffix(pat: Pattern, s: string, p: nat, caps: seq<string>)
    requires |pat| == 6 && pat[4].Lit? && pat[5] == Eol
    requires p <= |s| && Match(pat, 4, s, p) == Some(caps)
    ensures LitAt(pat[4].text, s, p) && EndOfLine(s, p + |pat[4].text|) && caps == []
  {
    StepLit(pat, 4, s, p, caps);
    StepEol(pat, 5, s, p + |pat[4].text|, caps);
    StepEnd(pat, s, p + |pat[4].text|, caps);
  }

  /** The tail `remove\s+(\S+)$` of the last route. */
  lemma MentionSuffix(pat: Pattern, s: string, p: nat, caps: seq<string>) returns (g: nat, h: nat)
    requires |pat| == 8 && pat[4] == Lit("remove") && pat[5] == Spaces && pat[6] == NonSpaces && pat[7] == Eol
    requires p <= |s| && Match(pat, 4, s, p) == Some(caps)
    ensures LitAt("remove", s, p) && MaximalRun(s, p + 6, g, true)
    ensures MaximalRun(s, g, h, false) && EndOfLine(s, h) && caps == [s[g..h]]
  {
    StepLit(pat, 4, s, p, caps);
    g := StepSpaces(pat, 5, s, p + 6, caps);
    h := StepNonSpaces(pat, 6, s, g, caps);
    StepEol(pat, 7, s, h, caps[1..]);
    StepEnd(pat, s, h, caps[1..]);
    assert caps == [caps[0]];
  }

  lemma RoutesDeterministic(route: Route)
    ensures Deterministic(PatternOf(route))
  {
    var pat := PatternOf(route);
    RouteAtoms(route);
    forall i | 0 <= i < |pat|
      ensures pat[i].Spaces? ==> i + 1 < |pat| && Solid(pat[i + 1])
      ensures pat[i].NonSpaces? ==> i + 1 < |pat| && (pat[i + 1].Eol? || pat[i + 1].Spaces?)
    {
    }
  }

  /** How many groups a route captures. */
  function Arity(route: Route): nat
  {
    match route
    case ConfirmRoute => 1
    case TotpConfirmRoute => 2
    case RemoveRoute => 1
    case _ => 0
  }

  /** The handler call a route makes with its captures (`response.matches[0]`). */
  function CommandOf(route: Route, caps: seq<string>): Command
    requires |caps| == Arity(route)
  {
    match route
    case ConfirmRoute => Confirm(caps[0])
    case TotpConfirmRoute => TotpConfirm(caps[0], caps[1])
    case EnrollRoute => Enroll
    case RemoveSelfRoute => RemoveSelf
    case RemoveRoute => Remove(caps[0])
  }

  /** The atoms of each route's pattern, spelled out. */
  lemma RouteAtoms(route: Route)
    ensures var pat := PatternOf(route);
            && |pat| > 3 && pat[0] == Lit("confirm") && pat[1] == Spaces
            && (Index(route) < 2 ==> pat[2] == Chars(Hex, 6))
            && (route.ConfirmRoute? ==> |pat| == 4 && pat[3] == Eol)
            && (route.TotpConfirmRoute? ==> |pat| == 6 && pat[3] == Spaces && pat[4] == Chars(Digit, 6) && pat[5] == Eol)
            && (Index(route) >= 2 ==> |pat| > 4 && pat[2] == Lit("2fa") && pat[3] == Spaces)
            && (route.EnrollRoute? ==> |pat| == 6 && pat[4] == Lit("enroll") && pat[5] == Eol)
            && (route.RemoveSelfRoute? ==> |pat| == 6 && pat[4] == Lit("remove") && pat[5] == Eol)
            && (route.RemoveRoute? ==> |pat| == 8 && pat[4] == Lit("remove") && pat[5] == Spaces && pat[6] == NonSpaces && pat[7] == Eol)
  {
  }

  /** Six characters of a class, captured. */
  lemma RunCaptured(cls: Class, s: string, e: nat, x: string)
    requires ClassRun(cls, s, e, 6) && x == s[e..e + 6]
    ensures |x| == 6 && forall k :: 0 <= k < 6 ==> InClass(cls, x[k])
  {
    assert forall k :: 0 <= k < 6 ==> x[k] == s[e + k];
  }

  lemma CodeCaptures(route: Route, s: string, q: nat, caps: seq<string>)
    requires Index(route) < 2 && q <= |s| && Match(PatternOf(route), 0, s, q) == Some(caps)
    ensures |caps| == Arity(route) && ValidCode(caps[0])
    ensures route.TotpConfirmRoute? ==> ValidOtp(caps[1])
  {
    RouteAtoms(route);
    if route.ConfirmRoute? {
      ConfirmCaptures(PatternOf(route), s, q, caps);
    } else {
      TotpConfirmCaptures(PatternOf(route), s, q, caps);
    }
  }

  lemma ConfirmCaptures(pat: Pattern, s: string, q: nat, caps: seq<string>)
    requires |pat| == 4 && pat[0] == Lit("confirm") && pat[1] == Spaces && pat[2] == Chars(Hex, 6) && pat[3] == Eol
    requires q <= |s| && Match(pat, 0, s, q) == Some(caps)
    ensures |caps| == 1 && ValidCode(caps[0])
  {
    var e := CodePrefix(pat, s, q, caps);
    RunCaptured(Hex, s, e, caps[0]);
    StepEol(pat, 3, s, e + 6, caps[1..]);
    StepEnd(pat, s, e + 6, caps[1..]);
  }

  lemma TotpConfirmCaptures(pat: Pattern, s: string, q: nat, caps: seq<string>)
    requires |pat| == 6 && pat[0] == Lit("confirm") && pat[1] == Spaces && pat[2] == Chars(Hex, 6)
    requires pat[3] == Spaces && pat[4] == Chars(Digit, 6) && pat[5] == Eol
    requires q <= |s| && Match(pat, 0, s, q) == Some(caps)
    ensures |caps| == 2 && ValidCode(caps[0]) && ValidOtp(caps[1])
  {
    var e := CodePrefix(pat, s, q, caps);
    RunCaptured(Hex, s, e, caps[0]);
    var f := OtpSuffix(pat, s, e + 6, caps[1..]);
    RunCaptured(Digit, s, f, caps[1]);
  }

  lemma TwoFactorCaptures(route: Route, s: string, q: nat, caps: seq<string>)
    requires Index(route) >= 2 && q <= |s| && Match(PatternOf(route), 0, s, q) == Some(caps)
    ensures |caps| == Arity(route)
    ensures route.RemoveRoute? ==> ValidMention(caps[0])
  {
    var pat := PatternOf(route);
    RouteAtoms(route);
    var e, f := TwoFactorPrefix(pat, s, q, caps);
    if route.RemoveRoute? {
      var g, h := MentionSuffix(pat, s, f, caps);
      assert forall k :: 0 <= k < |caps[0]| ==> caps[0][k] == s[g + k];
    } else {
      WordSuffix(pat, s, f, caps);
    }
  }

  /** The captures of any match of a route have the form its groups prescribe. */
  lemma FoundCaptures(route: Route, s: string, caps: seq<string>)
    requires exists q: nat :: q <= |s| && Match(PatternOf(route), 0, s, q) == Some(caps)
    ensures |caps| == Arity(route) && ValidCommand(CommandOf(route, caps))
  {
    var q: nat :| q <= |s| && Match(PatternOf(route), 0, s, q) == Some(caps);
    if Index(route) < 2 {
      CodeCaptures(route, s, q, caps);
    } else {
      TwoFactorCaptures(route, s, q, caps);
    }
  }

  /** A route fires at most once per message, with the captures of its leftmost match. */
  function Fire(route: Route, body: string): (r: seq<Command>)
    ensures |r| <= 1
    ensures r != [] <==> FindFrom(PatternOf(route), body, 0).Some?
    ensures forall c :: c in r ==> ValidCommand(c) && RouteIndex(c) == Index(route)
  {
    match FindFrom(PatternOf(route), body, 0)
    case None => []
    case Some(caps) =>
      FoundCaptures(route, body, caps);
      [CommandOf(route, caps)]
  }

  /** The route declared `n`-th. */
  function RouteAt(n: nat): (route: Route)
    requires n < 5
    ensures Index(route) == n
  {
    [ConfirmRoute, TotpConfirmRoute, EnrollRoute, RemoveSelfRoute, RemoveRoute][n]
  }

  /** The calls fired by the routes declared `n`-th and later, in declaration order. */
  function FireFrom(body: string, n: nat): (r: seq<Command>)
    requires n <= 5
    ensures forall c :: c in r ==> ValidCommand(c) && n <= RouteIndex(c)
    ensures forall i, j :: 0 <= i < j < |r| ==> RouteIndex(r[i]) < RouteIndex(r[j])
    decreases 5 - n
  {
    if n == 5 then [] else Fire(RouteAt(n), body) + FireFrom(body, n + 1)
  }

  /**
   * The handler calls a message fires, in route declaration order: each route at
   * most once, and each with captures of the form its groups prescribe.
   */
  function Recognise(body: string): (r: seq<Command>)
    ensures forall c :: c in r ==> ValidCommand(c)
    ensures forall i, j :: 0 <= i < j < |r| ==> RouteIndex(r[i]) < RouteIndex(r[j])
  {
    FireFrom(body, 0)
  }

  lemma FireFromSplit(body: string, n: nat)
    requires n < 5
    ensures FireFrom(body, n) == Fire(RouteAt(n), body) + FireFrom(body, n + 1)
  {
  }

  lemma ConcatAssoc(x: seq<Command>, y: seq<Command>, z: seq<Command>)
    ensures x + (y + z) == x + y + z
  {
  }

  lemma FireFromTail(body: string)
    ensures FireFrom(body, 3) == Fire(RemoveSelfRoute, body) + Fire(RemoveRoute, body)
  {
    assert RouteAt(3) == RemoveSelfRoute && RouteAt(4) == RemoveRoute;
    FireFromSplit(body, 3);
    FireFromSplit(body, 4);
    assert FireFrom(body, 5) == [];
    assert Fire(RemoveRoute, body) + [] == Fire(RemoveRoute, body);
  }

  lemma FireFromTwoFactor(body: string)
    ensures FireFrom(body, 2) == Fire(EnrollRoute, body) + Fire(RemoveSelfRoute, body) + Fire(RemoveRoute, body)
  {
    assert RouteAt(2) == EnrollRoute;
    FireFromSplit(body, 2);
    FireFromTail(body);
    ConcatAssoc(Fire(EnrollRoute, body), Fire(RemoveSelfRoute, body), Fire(RemoveRoute, body));
  }

  /** Recognise is the declared routes' calls concatenated in declaration order. */
  lemma RecogniseRoutes(body: string)
    ensures Recognise(body) == Fire(ConfirmRoute, body) + Fire(TotpConfirmRoute, body) + Fire(EnrollRoute, body)
                               + Fire(RemoveSelfRoute, body) + Fire(RemoveRoute, body)
  {
    assert RouteAt(0) == ConfirmRoute && RouteAt(1) == TotpConfirmRoute;
    FireFromSplit(body, 0);
    FireFromSplit(body, 1);
    FireFromTwoFactor(body);
    var a, b, c, d, e := Fire(ConfirmRoute, body), Fire(TotpConfirmRoute, body), Fire(EnrollRoute, body),
                         Fire(RemoveSelfRoute, body), Fire(RemoveRoute, body);
    ConcatAssoc(a, b, FireFrom(body, 2));
    ConcatAssoc(a + b, c + d, e);
    ConcatAssoc(a + b, c, d);
  }

  // On a message of one line only a match at its very start counts, and the five
  // routes exclude one another.

  lemma {:induction false} NoLaterLineStart(pat: Pattern, s: string, p: nat)
    requires '\n' !in s && 0 < p <= |s|
    ensures FindFrom(pat, s, p) == None
    decreases |s| - p
  {
    assert !LineStart(s, p) by {
      if p < |s| {
        assert s[p - 1] in s;
      }
    }
    if p < |s| {
      NoLaterLineStart(pat, s, p + 1);
    }
  }

  /** A route's scan of a one-line message is a match anchored at its start. */
  lemma SingleLineFind(pat: Pattern, s: string)
    requires '\n' !in s
    ensures FindFrom(pat, s, 0) == Match(pat, 0, s, 0)
  {
    if |s| > 0 {
      NoLaterLineStart(pat, s, 1);
    }
  }

  /** The `confirm\s+2fa\s+` shared by the last three routes. */
  lemma TwoFactorShape(route: Route, s: string, caps: seq<string>) returns (e: nat, f: nat)
    requires Index(route) >= 2 && Match(PatternOf(route), 0, s, 0) == Some(caps)
    ensures MaximalRun(s, 7, e, true) && LitAt("2fa", s, e) && MaximalRun(s, e + 3, f, true)
    ensures route.EnrollRoute? ==> LitAt("enroll", s, f) && EndOfLine(s, f + 6)
    ensures route.RemoveSelfRoute? ==> LitAt("remove", s, f) && EndOfLine(s, f + 6)
    ensures route.RemoveRoute? ==> LitAt("remove", s, f) && f + 6 < |s| && IsSpace(s[f + 6])
  {
    var pat := PatternOf(route);
    RouteAtoms(route);
    e, f := TwoFactorPrefix(pat, s, 0, caps);
    if route.RemoveRoute? {
      var g, h := MentionSuffix(pat, s, f, caps);
    } else {
      WordSuffix(pat, s, f, caps);
    }
  }

  /** The code of the first two routes: six hexadecimal digits after `confirm\s+`. */
  lemma CodeShape(route: Route, s: string, caps: seq<string>) returns (e: nat)
    requires Index(route) < 2 && Match(PatternOf(route), 0, s, 0) == Some(caps)
    ensures MaximalRun(s, 7, e, true) && ClassRun(Hex, s, e, 6)
    ensures route.ConfirmRoute? ==> EndOfLine(s, e + 6)
    ensures route.TotpConfirmRoute? ==> e + 6 < |s| && IsSpace(s[e + 6])
  {
    var pat := PatternOf(route);
    RouteAtoms(route);
    e := CodePrefix(pat, s, 0, caps);
    if route.ConfirmRoute? {
      StepEol(pat, 3, s, e + 6, caps[1..]);
    } else {
      var f := OtpSuffix(pat, s, e + 6, caps[1..]);
    }
  }

  lemma CodeRoutesExclusive(s: string, x: Route, y: Route)
    requires '\n' !in s && x.ConfirmRoute? && y.TotpConfirmRoute?
    ensures !(Match(PatternOf(x), 0, s, 0).Some? && Match(PatternOf(y), 0, s, 0).Some?)
  {
    var mx, my := Match(PatternOf(x), 0, s, 0), Match(PatternOf(y), 0, s, 0);
    if mx.Some? && my.Some? {
      var e := CodeShape(x, s, mx.value);
      var e' := CodeShape(y, s, my.value);
    }
  }

  lemma CodeExcludesTwoFactor(s: string, x: Route, y: Route)
    requires Index(x) < 2 <= Index(y)
    ensures !(Match(PatternOf(x), 0, s, 0).Some? && Match(PatternOf(y), 0, s, 0).Some?)
  {
    var mx, my := Match(PatternOf(x), 0, s, 0), Match(PatternOf(y), 0, s, 0);
    if mx.Some? && my.Some? {
      var e := CodeShape(x, s, mx.value);
      var e', f := TwoFactorShape(y, s, my.value);
    }
  }

  lemma LitHead(t: string, s: string, p: nat)
    requires |t| > 0
    ensures LitAt(t, s, p) ==> p < |s| && Fold(s[p]) == t[0]
  {
    if LitAt(t, s, p) {
      var k := 0;
      assert Fold(s[p + k]) == t[k];
    }
  }

  lemma WordsDiffer(s: string, p: nat)
    ensures !(LitAt("enroll", s, p) && LitAt("remove", s, p))
  {
    LitHead("enroll", s, p);
    LitHead("remove", s, p);
  }

  lemma EnrollExcludesRemoval(s: string, x: Route, y: Route)
    requires x.EnrollRoute? && Index(y) > 2
    ensures !(Match(PatternOf(x), 0, s, 0).Some? && Match(PatternOf(y), 0, s, 0).Some?)
  {
    var mx, my := Match(PatternOf(x), 0, s, 0), Match(PatternOf(y), 0, s, 0);
    if mx.Some? && my.Some? {
      var e, f := TwoFactorShape(x, s, mx.value);
      var e', f' := TwoFactorShape(y, s, my.value);
      MaximalRunUnique(s, 7, e, e', true);
      MaximalRunUnique(s, e + 3, f, f', true);
      WordsDiffer(s, f);
    }
  }

  lemma RemovalsExclusive(s: string, x: Route, y: Route)
    requires '\n' !in s && x.RemoveSelfRoute? && y.RemoveRoute?
    ensures !(Match(PatternOf(x), 0, s, 0).Some? && Match(PatternOf(y), 0, s, 0).Some?)
  {
    var mx, my := Match(PatternOf(x), 0, s, 0), Match(PatternOf(y), 0, s, 0);
    if mx.Some? && my.Some? {
      var e, f := TwoFactorShape(x, s, mx.value);
      var e', f' := TwoFactorShape(y, s, my.value);
    }
  }

  /** Two different routes never both match a one-line message. */
  lemma Exclusive(s: string, x: Route, y: Route)
    requires '\n' !in s && Index(x) < Index(y)
    ensures !(Match(PatternOf(x), 0, s, 0).Some? && Match(PatternOf(y), 0, s, 0).Some?)
  {
    if Index(y) < 2 {
      CodeRoutesExclusive(s, x, y);
    } else if Index(x) < 2 {
      CodeExcludesTwoFactor(s, x, y);
    } else if x.EnrollRoute? {
      EnrollExcludesRemoval(s, x, y);
    } else {
      RemovalsExclusive(s, x, y);
    }
  }

  /** A route fires on a one-line message exactly when it matches from the start. */
  lemma SingleLineFire(route: Route, body: string)
    requires '\n' !in body
    ensures Fire(route, body) != [] <==> Match(PatternOf(route), 0, body, 0).Some?
  {
    SingleLineFind(PatternOf(route), body);
  }

  /** No two routes fire on the same one-line message. */
  lemma FireExclusive(body: string, x: Route, y: Route)
    requires '\n' !in body && Index(x) < Index(y)
    ensures Fire(x, body) == [] || Fire(y, body) == []
  {
    SingleLineFire(x, body);
    SingleLineFire(y, body);
    Exclusive(body, x, y);
  }

  /** A message of one line triggers at most one handler call. */
  lemma AtMostOneRoute(body: string)
    requires '\n' !in body
    ensures |Recognise(body)| <= 1
  {
    RecogniseRoutes(body);
    var a, b, c, d, e := Fire(ConfirmRoute, body), Fire(TotpConfirmRoute, body), Fire(EnrollRoute, body),
                         Fire(RemoveSelfRoute, body), Fire(RemoveRoute, body);
    forall x: Route, y: Route | Index(x) < Index(y)
      ensures Fire(x, body) == [] || Fire(y, body) == []
    {
      FireExclusive(body, x, y);
    }
    AtMostOneOfFive(a, b, c, d, e);
  }

  /** Five sequences of at most one element each, at most one of them non-empty. */
  lemma AtMostOneOfFive(a: seq<Command>, b: seq<Command>, c: seq<Command>, d: seq<Command>, e: seq<Command>)
    requires |a| <= 1 && |b| <= 1 && |c| <= 1 && |d| <= 1 && |e| <= 1
    requires (a == [] || b == []) && (a == [] || c == []) && (a == [] || d == []) && (a == [] || e == [])
    requires (b == [] || c == []) && (b == [] || d == []) && (b == [] || e == [])
    requires (c == [] || d == []) && (c == [] || e == []) && (d == [] || e == [])
    ensures |a + b + c + d + e| <= 1
  {
  }

  // One step of the greedy matcher read forwards: what it does on input of a known shape.

  lemma ForwardLit(pat: Pattern, i: nat, s: string, p: nat)
    requires i < |pat| && pat[i].Lit? && p <= |s| && LitAt(pat[i].text, s, p)
    ensures Match(pat, i, s, p) == Match(pat, i + 1, s, p + |pat[i].text|)
  {
  }

  lemma ForwardSpaces(pat: Pattern, i: nat, s: string, p: nat, e: nat)
    requires i < |pat| && pat[i] == Spaces && MaximalRun(s, p, e, true)
    ensures Match(pat, i, s, p) == Match(pat, i + 1, s, e)
  {
    var r := RunEnd(s, p, true);
    MaximalRunUnique(s, p, r, e, true);
  }

  lemma ForwardChars(pat: Pattern, i: nat, s: string, p: nat)
    requires i < |pat| && pat[i].Chars? && p <= |s| && ClassRun(pat[i].cls, s, p, pat[i].count)
    ensures var n := pat[i].count;
            Match(pat, i, s, p) == Capture(s[p..p + n], Match(pat, i + 1, s, p + n))
  {
  }

  lemma ForwardNonSpaces(pat: Pattern, i: nat, s: string, p: nat, e: nat)
    requires i < |pat| && pat[i] == NonSpaces && MaximalRun(s, p, e, false)
    ensures Match(pat, i, s, p) == Capture(s[p..e], Match(pat, i + 1, s, e))
  {
    var r := RunEnd(s, p, false);
    MaximalRunUnique(s, p, r, e, false);
  }

  lemma ForwardEol(pat: Pattern, i: nat, s: string, p: nat)
    requires i < |pat| && pat[i] == Eol && p <= |s| && EndOfLine(s, p)
    ensures Match(pat, i, s, p) == Match(pat, i + 1, s, p)
  {
  }

  /** Every character of `t` is its own case fold. */
  predicate Plain(t: string)
  {
    t == [] || (Fold(t[0]) == t[0] && Plain(t[1..]))
  }

  lemma {:induction false} PlainLitAt(t: string, s: string, p: nat)
    requires Plain(t) && p + |t| <= |s| && s[p..p + |t|] == t
    ensures LitAt(t, s, p)
    decreases |t|
  {
    if t != [] {
      assert s[p + 1..p + 1 + |t[1..]|] == t[1..];
      PlainLitAt(t[1..], s, p + 1);
      forall k | 0 <= k < |t|
        ensures Fold(s[p + k]) == t[k]
      {
        if k > 0 {
          assert Fold(s[(p + 1) + (k - 1)]) == t[1..][k - 1];
        } else {
          assert s[p] == s[p..p + |t|][0];
        }
      }
    }
  }

  /** The message a user types to issue a command. */
  function Render(c: Command): string
  {
    match c
    case Confirm(code) => "confirm " + code
    case TotpConfirm(code, otp) => "confirm " + code + " " + otp
    case Enroll => "confirm 2fa enroll"
    case RemoveSelf => "confirm 2fa remove"
    case Remove(mention) => "confirm 2fa remove " + mention
  }

  /** The route that makes a given handler call. */
  function RouteOf(c: Command): (route: Route)
    ensures Index(route) == RouteIndex(c)
  {
    match c
    case Confirm(_) => ConfirmRoute
    case TotpConfirm(_, _) => TotpConfirmRoute
    case Enroll => EnrollRoute
    case RemoveSelf => RemoveSelfRoute
    case Remove(_) => RemoveRoute
  }

  /** `confirm <code>` followed by `rest`, matched by a pattern that starts with `confirm\s+([a-f0-9]{6})`. */
  lemma CodeRendered(pat: Pattern, code: string, rest: string)
    requires |pat| > 3 && pat[0] == Lit("confirm") && pat[1] == Spaces && pat[2] == Chars(Hex, 6)
    requires ValidCode(code)
    ensures Match(pat, 0, "confirm " + code + rest, 0) == Capture(code, Match(pat, 3, "confirm " + code + rest, 14))
  {
    var s := "confirm " + code + rest;
    assert s[0..7] == "confirm" && s[7] == ' ' && s[8] == code[0] && InClass(Hex, code[0]);
    ConfirmThenSpace(pat, s);
    assert forall k :: 8 <= k < 14 ==> s[k] == code[k - 8];
    assert s[8..14] == code;
    ForwardChars(pat, 2, s, 8);
  }

  lemma ConfirmRendered(pat: Pattern, code: string)
    requires |pat| == 4 && pat[0] == Lit("confirm") && pat[1] == Spaces && pat[2] == Chars(Hex, 6) && pat[3] == Eol
    requires ValidCode(code)
    ensures Match(pat, 0, Render(Confirm(code)), 0) == Some([code])
  {
    var s := Render(Confirm(code));
    assert s == "confirm " + code + [];
    CodeRendered(pat, code, []);
    ForwardEol(pat, 3, s, 14);
    assert [code] + [] == [code];
  }

  /** A space and a one-time password ending the message at `p`, matched by the tail `\s+([0-9]{6})$`. */
  lemma OtpRendered(pat: Pattern, s: string, p: nat, otp: string)
    requires |pat| == 6 && pat[3] == Spaces && pat[4] == Chars(Digit, 6) && pat[5] == Eol
    requires ValidOtp(otp) && p + 7 == |s| && s[p] == ' ' && s[p + 1..] == otp
    ensures Match(pat, 3, s, p) == Some([otp])
  {
    assert s[p + 1] == otp[0] && InClass(Digit, otp[0]);
    ForwardSpaces(pat, 3, s, p, p + 1);
    assert s[p + 1..p + 7] == otp;
    ForwardChars(pat, 4, s, p + 1);
    ForwardEol(pat, 5, s, p + 7);
    assert [otp] + [] == [otp];
  }

  lemma TotpConfirmRendered(pat: Pattern, code: string, otp: string)
    requires |pat| == 6 && pat[0] == Lit("confirm") && pat[1] == Spaces && pat[2] == Chars(Hex, 6)
    requires pat[3] == Spaces && pat[4] == Chars(Digit, 6) && pat[5] == Eol
    requires ValidCode(code) && ValidOtp(otp)
    ensures Match(pat, 0, Render(TotpConfirm(code, otp)), 0) == Some([code, otp])
  {
    var s := Render(TotpConfirm(code, otp));
    assert s == "confirm " + code + (" " + otp);
    CodeRendered(pat, code, " " + otp);
    assert s[14] == ' ' && s[15..] == otp;
    OtpRendered(pat, s, 14, otp);
    assert [code] + [otp] == [code, otp];
  }

  /** A plain word and one space character before a non-space, matched by `word\s+`. */
  lemma WordThenSpace(pat: Pattern, i: nat, s: string, p: nat, word: string)
    requires i + 1 < |pat| && pat[i] == Lit(word) && pat[i + 1] == Spaces && Plain(word)
    requires p + |word| + 1 < |s| && s[p..p + |word|] == word && IsSpace(s[p + |word|]) && !IsSpace(s[p + |word| + 1])
    ensures Match(pat, i, s, p) == Match(pat, i + 2, s, p + |word| + 1)
  {
    PlainLitAt(word, s, p);
    ForwardLit(pat, i, s, p);
    ForwardSpaces(pat, i + 1, s, p + |word|, p + |word| + 1);
  }

  /** `confirm 2fa ` followed by `rest`, matched by a pattern that starts with `confirm\s+2fa\s+`. */
  lemma TwoFactorRendered(pat: Pattern, rest: string)
    requires |pat| > 4 && pat[0] == Lit("confirm") && pat[1] == Spaces && pat[2] == Lit("2fa") && pat[3] == Spaces
    requires rest != [] && !IsSpace(rest[0])
    ensures Match(pat, 0, "confirm 2fa " + rest, 0) == Match(pat, 4, "confirm 2fa " + rest, 12)
  {
    var s := "confirm 2fa " + rest;
    assert s[..12] == "confirm 2fa " && s[12] == rest[0];
    assert s[0..7] == "confirm" && s[7] == ' ' && s[8] == '2' && s[8..11] == "2fa" && s[11] == ' ' by {
      assert forall k :: 0 <= k < 12 ==> s[k] == "confirm 2fa "[k];
    }
    ConfirmThenSpace(pat, s);
    TwoFaThenSpace(pat, s);
  }

  lemma ConfirmThenSpace(pat: Pattern, s: string)
    requires |pat| > 1 && pat[0] == Lit("confirm") && pat[1] == Spaces
    requires 8 < |s| && s[0..7] == "confirm" && s[7] == ' ' && !IsSpace(s[8])
    ensures Match(pat, 0, s, 0) == Match(pat, 2, s, 8)
  {
    WordThenSpace(pat, 0, s, 0, "confirm");
  }

  lemma TwoFaThenSpace(pat: Pattern, s: string)
    requires |pat| > 3 && pat[2] == Lit("2fa") && pat[3] == Spaces
    requires 12 < |s| && s[8..11] == "2fa" && s[11] == ' ' && !IsSpace(s[12])
    ensures Match(pat, 2, s, 8) == Match(pat, 4, s, 12)
  {
    WordThenSpace(pat, 2, s, 8, "2fa");
  }

  /** A word and the end of a line after `confirm 2fa `, matched by the tail `word$`. */
  lemma WordRendered(pat: Pattern, word: string, rest: string)
    requires |pat| == 6 && pat[4] == Lit(word) && pat[5] == Eol && Plain(word)
    requires rest == [] || rest[0] == '\n'
    ensures Match(pat, 4, "confirm 2fa " + (word + rest), 12) == Some([])
  {
    var s := "confirm 2fa " + (word + rest);
    assert s[12..12 + |word|] == word;
    PlainLitAt(word, s, 12);
    ForwardLit(pat, 4, s, 12);
    assert rest != [] ==> s[12 + |word|] == rest[0];
    ForwardEol(pat, 5, s, 12 + |word|);
  }

  /**
   * `remove`, one whitespace character `sep` and a mention name after `confirm 2fa `,
   * matched by `remove\s+(\S+)$`.
   */
  lemma MentionRendered(pat: Pattern, sep: char, mention: string)
    requires |pat| == 8 && pat[4] == Lit("remove") && pat[5] == Spaces && pat[6] == NonSpaces && pat[7] == Eol
    requires IsSpace(sep) && ValidMention(mention)
    ensures Match(pat, 4, "confirm 2fa " + ("remove" + ([sep] + mention)), 12) == Some([mention])
  {
    var s := "confirm 2fa " + ("remove" + ([sep] + mention));
    assert s[12..18] == "remove" && s[18] == sep && s[19] == mention[0];
    assert forall k :: 19 <= k < |s| ==> s[k] == mention[k - 19];
    assert s[19..|s|] == mention;
    RemoveThenMention(pat, s, mention);
  }

  lemma RemoveThenMention(pat: Pattern, s: string, mention: string)
    requires |pat| == 8 && pat[4] == Lit("remove") && pat[5] == Spaces && pat[6] == NonSpaces && pat[7] == Eol
    requires ValidMention(mention) && |s| == 19 + |mention| && s[12..18] == "remove" && IsSpace(s[18])
    requires s[19..|s|] == mention
    ensures Match(pat, 4, s, 12) == Some([mention])
  {
    assert forall k :: 19 <= k < |s| ==> s[k] == mention[k - 19];
    assert MaximalRun(s, 19, |s|, false);
    WordThenSpace(pat, 4, s, 12, "remove");
    ForwardNonSpaces(pat, 6, s, 19, |s|);
    ForwardEol(pat, 7, s, |s|);
    assert Match(pat, 8, s, |s|) == Some([]);
    assert [mention] + [] == [mention];
  }

  /** `confirm 2fa <word>`, matched by a pattern `confirm\s+2fa\s+word$`. */
  lemma WordCommandRendered(pat: Pattern, word: string)
    requires |pat| == 6 && pat[0] == Lit("confirm") && pat[1] == Spaces && pat[2] == Lit("2fa") && pat[3] == Spaces
    requires pat[4] == Lit(word) && pat[5] == Eol && Plain(word) && word != [] && !IsSpace(word[0])
    ensures Match(pat, 0, "confirm 2fa " + word, 0) == Some([])
  {
    assert word + [] == word;
    TwoFactorRendered(pat, word);
    WordRendered(pat, word, []);
  }

  lemma EnrollRendered(pat: Pattern)
    requires |pat| == 6 && pat[0] == Lit("confirm") && pat[1] == Spaces && pat[2] == Lit("2fa") && pat[3] == Spaces
    requires pat[4] == Lit("enroll") && pat[5] == Eol
    ensures Match(pat, 0, Render(Enroll), 0) == Some([])
  {
    assert Render(Enroll) == "confirm 2fa " + "enroll";
    WordCommandRendered(pat, "enroll");
  }

  lemma RemoveSelfRendered(pat: Pattern)
    requires |pat| == 6 && pat[0] == Lit("confirm") && pat[1] == Spaces && pat[2] == Lit("2fa") && pat[3] == Spaces
    requires pat[4] == Lit("remove") && pat[5] == Eol
    ensures Match(pat, 0, Render(RemoveSelf), 0) == Some([])
  {
    assert Render(RemoveSelf) == "confirm 2fa " + "remove";
    WordCommandRendered(pat, "remove");
  }

  lemma RemoveRendered(pat: Pattern, mention: string)
    requires |pat| == 8 && pat[0] == Lit("confirm") && pat[1] == Spaces && pat[2] == Lit("2fa") && pat[3] == Spaces
    requires pat[4] == Lit("remove") && pat[5] == Spaces && pat[6] == NonSpaces && pat[7] == Eol
    requires ValidMention(mention)
    ensures Match(pat, 0, Render(Remove(mention)), 0) == Some([mention])
  {
    assert Render(Remove(mention)) == "confirm 2fa " + ("remove" + ([' '] + mention));
    TwoFactorRendered(pat, "remove" + ([' '] + mention));
    MentionRendered(pat, ' ', mention);
  }

  /** The message for a command is one line. */
  lemma RenderSingleLine(c: Command)
    requires ValidCommand(c)
    ensures '\n' !in Render(c)
  {
    var s := Render(c);
    forall k | 0 <= k < |s|
      ensures s[k] != '\n'
    {
      match c
      case Confirm(code) =>
        if k >= 8 { assert s[k] == code[k - 8]; }
      case TotpConfirm(code, otp) =>
        if 8 <= k < 14 { assert s[k] == code[k - 8]; }
        if k >= 15 { assert s[k] == otp[k - 15]; }
      case Remove(mention) =>
        if k >= 19 { assert s[k] == mention[k - 19]; }
      case _ =>
    }
  }

  /** The message for a command matches the command's own route, with the command's arguments as captures. */
  lemma RenderedMatch(c: Command) returns (caps: seq<string>)
    requires ValidCommand(c)
    ensures Match(PatternOf(RouteOf(c)), 0, Render(c), 0) == Some(caps)
    ensures |caps| == Arity(RouteOf(c)) && CommandOf(RouteOf(c), caps) == c
  {
    var pat := PatternOf(RouteOf(c));
    RouteAtoms(RouteOf(c));
    match c
    case Confirm(code) =>
      ConfirmRendered(pat, code);
      caps := [code];
    case TotpConfirm(code, otp) =>
      TotpConfirmRendered(pat, code, otp);
      caps := [code, otp];
    case Enroll =>
      EnrollRendered(pat);
      caps := [];
    case RemoveSelf =>
      RemoveSelfRendered(pat);
      caps := [];
    case Remove(mention) =>
      RemoveRendered(pat, mention);
      caps := [mention];
  }

  /** Typing the message for a well-formed command makes exactly that one handler call. */
  lemma RenderRecognised(c: Command)
    requires ValidCommand(c)
    ensures Recognise(Render(c)) == [c]
  {
    var s, route := Render(c), RouteOf(c);
    RenderSingleLine(c);
    var caps := RenderedMatch(c);
    SingleLineFind(PatternOf(route), s);
    assert Fire(route, s) == [c];
    AtMostOneRoute(s);
    RecogniseRoutes(s);
  }

  // A message of several lines: each route scans every line, so more than one can fire.

  lemma {:induction false} SkipWithinLine(pat: Pattern, s: string, p: nat, q: nat)
    requires 0 < p <= q <= |s| && forall k :: p - 1 <= k < q - 1 ==> s[k] != '\n'
    ensures FindFrom(pat, s, p) == FindFrom(pat, s, q)
    decreases q - p
  {
    if p < q {
      assert s[p - 1] != '\n';
      SkipWithinLine(pat, s, p + 1, q);
    }
  }

  /** A removal command on one line and a user name on the next. */
  function RemovalThenName(name: string): string
  {
    "confirm 2fa remove\n" + name
  }

  /** No pattern that starts with `confirm\s+` matches text without whitespace. */
  lemma NoMatchWithoutSpace(pat: Pattern, s: string, p: nat)
    requires |pat| > 1 && pat[0] == Lit("confirm") && pat[1] == Spaces
    requires p <= |s| && forall k :: p <= k < |s| ==> !IsSpace(s[k])
    ensures Match(pat, 0, s, p).None?
  {
  }

  /**
   * In the removal-then-name message, no pattern that starts with `confirm\s+` finds a
   * match after position 0: the name, on the last line, starts none.
   */
  lemma NameLineSilent(pat: Pattern, name: string)
    requires |pat| > 1 && pat[0] == Lit("confirm") && pat[1] == Spaces && ValidMention(name)
    ensures FindFrom(pat, RemovalThenName(name), 1) == None
  {
    var s, first := RemovalThenName(name), "confirm 2fa remove";
    assert s == first + "\n" + name;
    assert '\n' !in first;
    assert forall k :: 0 <= k < 18 ==> s[k] == first[k];
    SkipWithinLine(pat, s, 1, 19);
    assert forall k :: 19 <= k < |s| ==> s[k] == name[k - 19];
    NoMatchWithoutSpace(pat, s, 19);
    SkipWithinLine(pat, s, 20, |s|);
  }

  lemma FirstLineRemoveSelf(pat: Pattern, name: string)
    requires |pat| == 6 && pat[0] == Lit("confirm") && pat[1] == Spaces && pat[2] == Lit("2fa") && pat[3] == Spaces
    requires pat[4] == Lit("remove") && pat[5] == Eol
    ensures Match(pat, 0, RemovalThenName(name), 0) == Some([])
  {
    assert RemovalThenName(name) == "confirm 2fa " + ("remove" + ("\n" + name));
    TwoFactorRendered(pat, "remove" + ("\n" + name));
    WordRendered(pat, "remove", "\n" + name);
  }

  lemma BothLinesRemove(pat: Pattern, name: string)
    requires |pat| == 8 && pat[0] == Lit("confirm") && pat[1] == Spaces && pat[2] == Lit("2fa") && pat[3] == Spaces
    requires pat[4] == Lit("remove") && pat[5] == Spaces && pat[6] == NonSpaces && pat[7] == Eol
    requires ValidMention(name)
    ensures Match(pat, 0, RemovalThenName(name), 0) == Some([name])
  {
    assert RemovalThenName(name) == "confirm 2fa " + ("remove" + (['\n'] + name));
    TwoFactorRendered(pat, "remove" + (['\n'] + name));
    MentionRendered(pat, '\n', name);
  }

  /** Both removal routes fire, the second taking the name on the next line. */
  lemma RemovalsFire(name: string, route: Route)
    requires ValidMention(name) && Index(route) >= 3
    ensures Fire(route, RemovalThenName(name)) == if route.RemoveSelfRoute? then [RemoveSelf] else [Remove(name)]
  {
    RouteAtoms(route);
    if route.RemoveSelfRoute? {
      FirstLineRemoveSelf(PatternOf(route), name);
    } else {
      BothLinesRemove(PatternOf(route), name);
    }
    assert LineStart(RemovalThenName(name), 0);
  }

  /** The other three routes match neither line. */
  lemma OthersSilent(name: string, route: Route)
    requires ValidMention(name) && Index(route) < 3
    ensures Fire(route, RemovalThenName(name)) == []
  {
    var s := RemovalThenName(name);
    RouteAtoms(route);
    RouteAtoms(RemoveSelfRoute);
    FirstLineRemoveSelf(PatternOf(RemoveSelfRoute), name);
    if Index(route) < 2 {
      CodeExcludesTwoFactor(s, route, RemoveSelfRoute);
    } else {
      EnrollExcludesRemoval(s, route, RemoveSelfRoute);
    }
    NameLineSilent(PatternOf(route), name);
  }

  /**
   * The anchors are line anchors: a message whose first line is `confirm 2fa remove`
   * and whose second line is a user name fires both removal routes, the sender's own
   * removal first and then the removal of the named user. What these two calls do
   * to the store is `Session.RemoveSelfThenRemove`.
   */
  lemma RemovalThenNameFiresBoth(name: string)
    requires ValidMention(name)
    ensures Recognise(RemovalThenName(name)) == [RemoveSelf, Remove(name)]
  {
    RemovalThenNameFrom(name, 0);
  }

  /** The calls the routes declared `n`-th and later fire on that message. */
  lemma {:induction false} RemovalThenNameFrom(name: string, n: nat)
    requires ValidMention(name) && n <= 5
    ensures FireFrom(RemovalThenName(name), n) ==
              if n <= 3 then [RemoveSelf, Remove(name)] else if n == 4 then [Remove(name)] else []
    decreases 5 - n
  {
    if n < 5 {
      RemovalThenNameFrom(name, n + 1);
      if n < 3 {
        OthersSilent(name, RouteAt(n));
      } else {
        RemovalsFire(name, RouteAt(n));
      }
    }
  }
}
