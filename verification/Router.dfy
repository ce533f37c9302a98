/**
 The request router (src/Presentation/Router.php): routes in registration order, each
 an HTTP method (`verb`), a pattern with `:name` placeholders and a handler;
 dispatch on the path of the request URI; and the 500 answer when a handler throws.

 The handler type is a parameter: the router only hands a handler back together with
 the placeholder values, and the caller runs it.
 */
module Router {
  import opened Core

  datatype Route<H> = Route(verb: string, pattern: string, handler: H)

  // ----- registration -----

  /** `addRoute`: the new route goes after every route registered before it. */
  function AddRoute<H>(routes: seq<Route<H>>, verb: string, pattern: string, handler: H): (r: seq<Route<H>>)
    ensures |r| == |routes| + 1 && r[..|routes|] == routes
    ensures r[|routes|] == Route(verb, pattern, handler)
  {
    routes + [Route(verb, pattern, handler)]
  }

  function Get<H>(routes: seq<Route<H>>, pattern: string, handler: H): seq<Route<H>> {
    AddRoute(routes, "GET", pattern, handler)
  }

  function Post<H>(routes: seq<Route<H>>, pattern: string, handler: H): seq<Route<H>> {
    AddRoute(routes, "POST", pattern, handler)
  }

  function Put<H>(routes: seq<Route<H>>, pattern: string, handler: H): seq<Route<H>> {
    AddRoute(routes, "PUT", pattern, handler)
  }

  function Delete<H>(routes: seq<Route<H>>, pattern: string, handler: H): seq<Route<H>> {
    AddRoute(routes, "DELETE", pattern, handler)
  }

  // ----- the path of a URI -----

  /** A control character: one below the space, or DEL. */
  predicate IsControl(c: char) {
    c < ' ' || c == '\U{007F}'
  }

  /** Text without control characters. */
  predicate Clean(s: string) {
    forall i :: 0 <= i < |s| ==> !IsControl(s[i])
  }

  /** `s` with `_` in place of each control character, as `parse_url` writes its parts. */
  function Scrubbed(s: string): string {
    seq(|s|, i requires 0 <= i < |s| => if IsControl(s[i]) then '_' else s[i])
  }

  /** Everything before the query string or fragment. */
  function BeforeQuery(uri: string): (p: string)
    ensures |p| <= |uri| && p == uri[..|p|]
    ensures '?' !in p && '#' !in p
    ensures |p| < |uri| ==> uri[|p|] == '?' || uri[|p|] == '#'
  {
    if uri == [] || uri[0] == '?' || uri[0] == '#' then [] else [uri[0]] + BeforeQuery(uri[1..])
  }

  /** The path of a request URI (`parse_url($uri, PHP_URL_PATH)`): everything before
      the query string or fragment, with each control character replaced by `_`. */
  function Path(uri: string): (p: string)
    ensures |p| <= |uri| && '?' !in uri[..|p|] && '#' !in uri[..|p|]
    ensures |p| < |uri| ==> uri[|p|] == '?' || uri[|p|] == '#'
    ensures forall i :: 0 <= i < |p| ==> p[i] == uri[i] || (IsControl(uri[i]) && p[i] == '_')
    ensures '?' !in p && '#' !in p && Clean(p)
  {
    var cut := BeforeQuery(uri);
    ScrubbedKeeps(cut, '?');
    ScrubbedKeeps(cut, '#');
    Scrubbed(cut)
  }

  /** Scrubbing neither adds nor removes a character that is not a control character
      and not `_`. */
  lemma ScrubbedKeeps(s: string, c: char)
    requires !IsControl(c) && c != '_'
    ensures c in Scrubbed(s) <==> c in s
  {
    var r := Scrubbed(s);
    if c in r {
      var i :| 0 <= i < |r| && r[i] == c;
      assert s[i] == c;
    }
    if c in s {
      var i :| 0 <= i < |s| && s[i] == c;
      assert r[i] == c;
    }
  }

  lemma ScrubbedOfClean(s: string)
    requires Clean(s)
    ensures Scrubbed(s) == s
  {
  }

  lemma ScrubbedAppend(a: string, b: string)
    ensures Scrubbed(a + b) == Scrubbed(a) + Scrubbed(b)
  {
    var l, r := Scrubbed(a + b), Scrubbed(a) + Scrubbed(b);
    forall i | 0 <= i < |l| ensures l[i] == r[i] {
      if i < |a| {
        assert (a + b)[i] == a[i];
      } else {
        assert (a + b)[i] == b[i - |a|];
      }
    }
  }

  /** A segment stays a segment without `?` or `#` when scrubbed. */
  lemma ScrubbedSegment(v: string)
    requires IsSegment(v) && '?' !in v && '#' !in v
    ensures IsSegment(Scrubbed(v)) && '?' !in Scrubbed(v) && '#' !in Scrubbed(v)
  {
    ScrubbedKeeps(v, '/');
    ScrubbedKeeps(v, '?');
    ScrubbedKeeps(v, '#');
  }

  /** No path the router sees ends in a newline, so PCRE's `$`, which also matches
      before one final newline, reads here as the end of the path. */
  lemma PathEndsWithoutNewline(uri: string)
    ensures var p := Path(uri);
      p == [] || p[|p| - 1] != '\n'
  {
    var p := Path(uri);
    if p != [] {
      assert !IsControl(p[|p| - 1]);
    }
  }

  // ----- patterns -----

  /** A word character of PCRE's `\w` outside UTF mode. */
  predicate IsWordChar(c: char) {
    ('a' <= c <= 'z') || ('A' <= c <= 'Z') || ('0' <= c <= '9') || c == '_'
  }

  /** A pattern, read the way `preg_replace('/:\w+/', …)` reads it: literal characters,
      and placeholders `:name` whose name is the longest run of word characters. */
  datatype Token = Lit(c: char) | Param(name: string)

  /** The longest prefix of `s` made of word characters. */
  function WordPrefix(s: string): (r: string)
    ensures |r| <= |s| && r == s[..|r|]
    ensures forall i :: 0 <= i < |r| ==> IsWordChar(r[i])
    ensures |r| < |s| ==> !IsWordChar(s[|r|])
  {
    if s != [] && IsWordChar(s[0]) then [s[0]] + WordPrefix(s[1..]) else []
  }

  /** The token at the front of a pattern, and how many characters it spans. */
  function NextToken(pattern: string): (r: (Token, nat))
    requires pattern != []
    ensures 1 <= r.1 <= |pattern|
    ensures r.0.Param? ==>
      r.1 == 1 + |r.0.name| && |r.0.name| > 0 && forall k :: 0 <= k < |r.0.name| ==> IsWordChar(r.0.name[k])
    ensures EndsWordless(r.0) && r.1 < |pattern| ==> !IsWordChar(pattern[r.1])
  {
    if pattern[0] == ':' && |pattern| > 1 && IsWordChar(pattern[1]) then
      var name := WordPrefix(pattern[1..]);
      (Param(name), 1 + |name|)
    else (Lit(pattern[0]), 1)
  }

  /** The pattern text of one token. */
  function TokenText(t: Token): string {
    match t
    case Lit(c) => [c]
    case Param(name) => [':'] + name
  }

  /** The pattern text of a token sequence. */
  function Render(ts: seq<Token>): string {
    if ts == [] then [] else TokenText(ts[0]) + Render(ts[1..])
  }

  /** A token after which a word character would have been read into a placeholder:
      a placeholder, or a `:` that starts none. */
  predicate EndsWordless(t: Token) {
    t.Param? || t == Lit(':')
  }

  function Compile(pattern: string): (ts: seq<Token>)
    decreases |pattern|
  {
    if pattern == [] then []
    else
      var (t, n) := NextToken(pattern);
      [t] + Compile(pattern[n..])
  }

  /** Every placeholder name is a non-empty run of word characters, and no word
      character is left as a literal right after a placeholder or a bare `:`. */
  predicate LongestNames(ts: seq<Token>) {
    && (forall i :: 0 <= i < |ts| && ts[i].Param? ==>
          |ts[i].name| > 0 && forall k :: 0 <= k < |ts[i].name| ==> IsWordChar(ts[i].name[k]))
    && (forall i :: 0 <= i < |ts| - 1 && EndsWordless(ts[i]) ==>
          !(ts[i + 1].Lit? && IsWordChar(ts[i + 1].c)))
  }

  /** The placeholders of a compiled pattern are the longest runs of word characters
      after a `:`, as `:\w+` reads them. */
  lemma {:induction false} CompileReadsLongestNames(pattern: string)
    ensures LongestNames(Compile(pattern))
    decreases |pattern|
  {
    if pattern != [] {
      var (t, n) := NextToken(pattern);
      var rest := Compile(pattern[n..]);
      CompileReadsLongestNames(pattern[n..]);
      var ts := [t] + rest;
      assert Compile(pattern) == ts;
      assert rest != [] ==> rest[0] == NextToken(pattern[n..]).0;
      forall i | 1 <= i < |ts| ensures ts[i] == rest[i - 1] { }
    }
  }

  /** Compiling loses nothing of the pattern. */
  lemma {:induction false} RenderCompile(pattern: string)
    ensures Render(Compile(pattern)) == pattern
    decreases |pattern|
  {
    if pattern != [] {
      var t := NextToken(pattern).0;
      var n := NextToken(pattern).1;
      var rest := pattern[n..];
      RenderFront(t, Compile(rest));
      RenderCompile(rest);
      NextTokenText(pattern);
      SplitAt(pattern, n);
    }
  }

  /** The token at the front spells the characters it spans. */
  lemma NextTokenText(pattern: string)
    requires pattern != []
    ensures TokenText(NextToken(pattern).0) == pattern[..NextToken(pattern).1]
  {
    var (t, n) := NextToken(pattern);
    if t.Param? {
      assert pattern[1..n] == t.name;
      assert pattern[..n] == pattern[..1] + pattern[1..n];
    }
  }

  lemma SplitAt(s: string, n: nat)
    requires n <= |s|
    ensures s[..n] + s[n..] == s
  {
  }

  lemma RenderFront(t: Token, ts: seq<Token>)
    ensures Render([t] + ts) == TokenText(t) + Render(ts)
  {
    assert ([t] + ts)[0] == t && ([t] + ts)[1..] == ts;
  }

  /** A placeholder value: a non-empty run of characters other than `/`. */
  predicate IsSegment(v: string) {
    |v| > 0 && '/' !in v
  }

  function ParamCount(ts: seq<Token>): nat {
    if ts == [] then 0 else (if ts[0].Param? then 1 else 0) + ParamCount(ts[1..])
  }

  /** The path a token sequence stands for once its placeholders take `args`. */
  function Instantiate(ts: seq<Token>, args: seq<string>): string
    requires |args| == ParamCount(ts)
  {
    if ts == [] then []
    else match ts[0]
      case Lit(c) => [c] + Instantiate(ts[1..], args)
      case Param(_) => args[0] + Instantiate(ts[1..], args[1..])
  }

  /** The longest prefix of `s` without `/`. */
  function SegmentPrefix(s: string): (r: string)
    ensures |r| <= |s| && r == s[..|r|] && '/' !in r
    ensures |r| < |s| ==> s[|r|] == '/'
  {
    if s != [] && s[0] != '/' then [s[0]] + SegmentPrefix(s[1..]) else []
  }

  /** `matchRoute`: the captures of the anchored regular expression `#^…$#` in which
      every placeholder is `([^/]+)`, or nothing when the path does not match. Each
      capture is greedy and gives back characters only when the rest fails, as PCRE
      backtracks. */
  function Match(ts: seq<Token>, s: string): Option<seq<string>>
    decreases |ts|, 1, 0
  {
    if ts == [] then (if s == [] then Some([]) else None)
    else match ts[0]
      case Lit(c) =>
        if s != [] && s[0] == c then Match(ts[1..], s[1..]) else None
      case Param(_) =>
        TryLengths(ts[1..], s, |SegmentPrefix(s)|)
  }

  /** The first capture length, from `n` down to 1, after which the rest matches. */
  function TryLengths(rest: seq<Token>, s: string, n: nat): Option<seq<string>>
    requires n <= |SegmentPrefix(s)|
    decreases |rest| + 1, 0, n
  {
    if n == 0 then None
    else match Match(rest, s[n..])
      case Some(more) => Some([s[..n]] + more)
      case None => TryLengths(rest, s, n - 1)
  }

  // ----- properties of matching -----

  /** The backtracking order of `([^/]+)`: a capture is found iff some length from 1 to
      `n` lets the rest match, and it is the longest such length, with the captures of
      the rest after it. */
  lemma {:induction false} TryLengthsLongest(rest: seq<Token>, s: string, n: nat)
    requires n <= |SegmentPrefix(s)|
    ensures TryLengths(rest, s, n).Some? <==> exists k :: 1 <= k <= n && Match(rest, s[k..]).Some?
    ensures TryLengths(rest, s, n).Some? ==>
      var a := TryLengths(rest, s, n).value;
      && |a| > 0 && 1 <= |a[0]| <= n && a[0] == s[..|a[0]|]
      && Match(rest, s[|a[0]|..]) == Some(a[1..])
      && forall k :: |a[0]| < k <= n ==> Match(rest, s[k..]).None?
    decreases n
  {
    if n > 0 {
      match Match(rest, s[n..])
      case Some(more) =>
        var a := [s[..n]] + more;
        assert TryLengths(rest, s, n) == Some(a);
        assert a[0] == s[..n] && a[1..] == more;
      case None =>
        assert TryLengths(rest, s, n) == TryLengths(rest, s, n - 1);
        TryLengthsLongest(rest, s, n - 1);
    }
  }

  /** Matching is sound: the captures are one segment per placeholder, and putting them
      back into the pattern gives the path. */
  lemma {:induction false} MatchSound(ts: seq<Token>, s: string)
    requires Match(ts, s).Some?
    ensures var args := Match(ts, s).value;
      && |args| == ParamCount(ts)
      && (forall i :: 0 <= i < |args| ==> IsSegment(args[i]))
      && Instantiate(ts, args) == s
    decreases |ts|, 1, 0
  {
    if ts != [] {
      match ts[0]
      case Lit(c) =>
        MatchSound(ts[1..], s[1..]);
      case Param(_) =>
        TryLengthsSound(ts[1..], s, |SegmentPrefix(s)|);
    }
  }

  lemma {:induction false} TryLengthsSound(rest: seq<Token>, s: string, n: nat)
    requires n <= |SegmentPrefix(s)| && TryLengths(rest, s, n).Some?
    ensures var args := TryLengths(rest, s, n).value;
      && |args| == ParamCount(rest) + 1
      && (forall i :: 0 <= i < |args| ==> IsSegment(args[i]))
      && args[0] + Instantiate(rest, args[1..]) == s
    decreases |rest| + 1, 0, n
  {
    match Match(rest, s[n..])
    case Some(more) =>
      MatchSound(rest, s[n..]);
      var args := [s[..n]] + more;
      assert args[1..] == more;
      assert s[..n] == SegmentPrefix(s)[..n];
      assert s == s[..n] + s[n..];
    case None =>
      TryLengthsSound(rest, s, n - 1);
  }

  /** Matching is complete: whenever the path is the pattern with segments put in,
      the router finds a match (possibly a different split of the same path). */
  lemma {:induction false} MatchComplete(ts: seq<Token>, args: seq<string>)
    requires |args| == ParamCount(ts)
    requires forall i :: 0 <= i < |args| ==> IsSegment(args[i])
    ensures Match(ts, Instantiate(ts, args)).Some?
    decreases |ts|
  {
    if ts != [] {
      var s := Instantiate(ts, args);
      match ts[0]
      case Lit(c) =>
        MatchComplete(ts[1..], args);
      case Param(_) =>
        var a := args[0];
        var tail := Instantiate(ts[1..], args[1..]);
        assert forall i :: 0 <= i < |args[1..]| ==> IsSegment(args[1..][i]) by {
          forall i | 0 <= i < |args[1..]| ensures IsSegment(args[1..][i]) {
            assert args[1..][i] == args[i + 1];
          }
        }
        MatchComplete(ts[1..], args[1..]);
        assert IsSegment(args[0]);
        SegmentPrefixCovers(a, tail);
        assert s[|a|..] == tail;
        TryLengthsFinds(ts[1..], s, |SegmentPrefix(s)|, |a|);
    }
  }

  /** The longest segment at the front of `a + t` is at least as long as the segment
      `a`. */
  lemma {:induction false} SegmentPrefixCovers(a: string, t: string)
    requires '/' !in a
    ensures |a| <= |SegmentPrefix(a + t)|
    decreases |a|
  {
    if a != [] {
      assert (a + t)[0] == a[0];
      assert (a + t)[1..] == a[1..] + t;
      SegmentPrefixCovers(a[1..], t);
    }
  }

  lemma {:induction false} TryLengthsFinds(rest: seq<Token>, s: string, n: nat, m: nat)
    requires 1 <= m <= n <= |SegmentPrefix(s)|
    requires Match(rest, s[m..]).Some?
    ensures TryLengths(rest, s, n).Some?
    decreases n
  {
    if n > m && Match(rest, s[n..]).None? {
      TryLengthsFinds(rest, s, n - 1, m);
    }
  }

  /** A pattern whose every placeholder ends the pattern or is followed by `/`: there a
      path splits into captures in only one way. */
  predicate WellSeparated(ts: seq<Token>) {
    forall i :: 0 <= i < |ts| && ts[i].Param? ==> i + 1 == |ts| || ts[i + 1] == Lit('/')
  }

  /** For such a pattern the router hands back exactly the segments the path was built
      from. */
  lemma {:induction false} MatchRoundTrip(ts: seq<Token>, args: seq<string>)
    requires WellSeparated(ts)
    requires |args| == ParamCount(ts)
    requires forall i :: 0 <= i < |args| ==> IsSegment(args[i])
    ensures Match(ts, Instantiate(ts, args)) == Some(args)
    decreases |ts|
  {
    if ts != [] {
      var s := Instantiate(ts, args);
      assert WellSeparated(ts[1..]) by {
        forall i | 0 <= i < |ts[1..]| && ts[1..][i].Param?
          ensures i + 1 == |ts[1..]| || ts[1..][i + 1] == Lit('/')
        {
          assert ts[1..][i] == ts[i + 1];
        }
      }
      match ts[0]
      case Lit(c) =>
        MatchRoundTrip(ts[1..], args);
      case Param(_) =>
        var a := args[0];
        var tail := Instantiate(ts[1..], args[1..]);
        assert forall i :: 0 <= i < |args[1..]| ==> IsSegment(args[1..][i]) by {
          forall i | 0 <= i < |args[1..]| ensures IsSegment(args[1..][i]) {
            assert args[1..][i] == args[i + 1];
          }
        }
        assert IsSegment(args[0]);
        MatchRoundTrip(ts[1..], args[1..]);
        assert s == a + tail;
        assert tail == [] || tail[0] == '/' by {
          if |ts| > 1 {
            assert ts[1] == Lit('/');
            assert ts[1..][0] == Lit('/');
          }
        }
        SegmentPrefixExact(a, tail);
        assert s[..|a|] == a && s[|a|..] == tail;
        assert [a] + args[1..] == args;
    }
  }

  /** The longest segment at the front of `a + t` is `a` when `t` is empty or starts
      with `/`. */
  lemma {:induction false} SegmentPrefixExact(a: string, t: string)
    requires '/' !in a && (t == [] || t[0] == '/')
    ensures SegmentPrefix(a + t) == a
    decreases |a|
  {
    if a == [] {
      assert a + t == t;
    } else {
      assert (a + t)[0] == a[0];
      assert (a + t)[1..] == a[1..] + t;
      SegmentPrefixExact(a[1..], t);
    }
  }

  // ----- fixed text, and fixed text with one trailing placeholder -----

  /** The tokens of a text without placeholders. */
  function Lits(p: string): (ts: seq<Token>)
    ensures |ts| == |p|
    ensures forall i :: 0 <= i < |p| ==> ts[i] == Lit(p[i])
  {
    seq(|p|, i requires 0 <= i < |p| => Lit(p[i]))
  }

  lemma {:induction false} CompileLits(p: string, rest: string)
    requires ':' !in p
    ensures Compile(p + rest) == Lits(p) + Compile(rest)
    decreases |p|
  {
    if p == [] {
      assert p + rest == rest;
    } else {
      var q := p + rest;
      assert q[0] == p[0] && q[1..] == p[1..] + rest;
      assert p[0] != ':' by { assert p[0] in p; }
      assert NextToken(q) == (Lit(p[0]), 1);
      assert Compile(q) == [Lit(p[0])] + Compile(q[1..]);
      assert ':' !in p[1..] by {
        forall i | 0 <= i < |p[1..]| ensures p[1..][i] != ':' {
          assert p[1..][i] == p[i + 1];
        }
      }
      CompileLits(p[1..], rest);
      LitsCons(p);
      assert Compile(q) == [Lit(p[0])] + (Lits(p[1..]) + Compile(rest));
    }
  }

  /** Fixed text at the front of a pattern must be the front of the path. */
  lemma {:induction false} MatchLitsThen(p: string, rest: seq<Token>, path: string)
    ensures Match(Lits(p) + rest, path)
      == if |p| <= |path| && path[..|p|] == p then Match(rest, path[|p|..]) else None
    decreases |p|, 1
  {
    if p == [] {
      assert Lits(p) + rest == rest;
      assert path[..0] == p && path[0..] == path;
    } else if path != [] && path[0] == p[0] {
      MatchLitsStep(p, rest, path);
    } else {
      MatchLitsMismatch(p, rest, path);
    }
  }

  lemma {:induction false} MatchLitsStep(p: string, rest: seq<Token>, path: string)
    requires p != [] && path != [] && path[0] == p[0]
    ensures Match(Lits(p) + rest, path)
      == if |p| <= |path| && path[..|p|] == p then Match(rest, path[|p|..]) else None
    decreases |p|, 0
  {
    LitsFront(p, rest);
    MatchLit(p[0], Lits(p) + rest, path);
    MatchLitsThen(p[1..], rest, path[1..]);
    if |p| <= |path| {
      PrefixStep(p, path);
    }
  }

  lemma MatchLitsMismatch(p: string, rest: seq<Token>, path: string)
    requires p != [] && !(path != [] && path[0] == p[0])
    ensures Match(Lits(p) + rest, path)
      == if |p| <= |path| && path[..|p|] == p then Match(rest, path[|p|..]) else None
  {
    LitsFront(p, rest);
    MatchLit(p[0], Lits(p) + rest, path);
    if |p| <= |path| {
      assert path[..|p|][0] == path[0];
    }
  }

  lemma LitsCons(p: string)
    requires p != []
    ensures Lits(p) == [Lit(p[0])] + Lits(p[1..])
  {
  }

  lemma LitsFront(p: string, rest: seq<Token>)
    requires p != []
    ensures (Lits(p) + rest)[0] == Lit(p[0]) && (Lits(p) + rest)[1..] == Lits(p[1..]) + rest
  {
  }

  /** A literal token at the front must be the path's first character. */
  lemma MatchLit(c: char, ts: seq<Token>, path: string)
    requires ts != [] && ts[0] == Lit(c)
    ensures Match(ts, path) == if path != [] && path[0] == c then Match(ts[1..], path[1..]) else None
  {
  }

  lemma PrefixStep(p: string, path: string)
    requires p != [] && |p| <= |path| && path[0] == p[0]
    ensures (path[..|p|] == p) == (path[1..][..|p| - 1] == p[1..])
    ensures path[1..][|p| - 1..] == path[|p|..]
  {
    assert path[..|p|] == [path[0]] + path[1..][..|p| - 1];
    assert p == [p[0]] + p[1..];
  }

  /** A lone placeholder matches exactly the segments, capturing the whole path. */
  lemma SinglePlaceholder(name: string, s: string)
    ensures Match([Param(name)], s) == if IsSegment(s) then Some([s]) else None
  {
    var n := |SegmentPrefix(s)|;
    assert [Param(name)][1..] == [];
    assert Match([Param(name)], s) == TryLengths([], s, n);
    if IsSegment(s) {
      SegmentPrefixExact(s, []);
      assert s + [] == s;
      assert s[..n] == s && s[n..] == [];
      assert Match([], s[n..]) == Some([]);
      assert [s[..n]] + [] == [s];
    } else {
      OnlyTheWholeRest(s, n);
    }
  }

  lemma {:induction false} OnlyTheWholeRest(s: string, n: nat)
    requires n <= |SegmentPrefix(s)| && !IsSegment(s)
    ensures TryLengths([], s, n).None?
    decreases n
  {
    if n > 0 {
      assert n < |s|;
      assert s[n..] != [];
      OnlyTheWholeRest(s, n - 1);
    }
  }

  /** A pattern without placeholders matches its own text and nothing else. */
  lemma FixedPattern(p: string, path: string)
    requires ':' !in p
    ensures Match(Compile(p), path) == if path == p then Some([]) else None
  {
    CompileLits(p, []);
    assert p + [] == p;
    assert Lits(p) + [] == Lits(p);
    MatchLitsThen(p, [], path);
    if |p| <= |path| && path[..|p|] == p && path[|p|..] == [] {
      assert path == path[..|p|];
    }
  }

  /** A word of word characters as a placeholder name. */
  lemma {:induction false} WordPrefixOfWord(w: string)
    requires forall i :: 0 <= i < |w| ==> IsWordChar(w[i])
    ensures WordPrefix(w) == w
    decreases |w|
  {
    if w != [] {
      WordPrefixOfWord(w[1..]);
    }
  }

  /** The tokens of `p:name` with `p` free of placeholders. */
  lemma TrailingPlaceholderTokens(p: string, name: string)
    requires ':' !in p && |name| > 0 && forall i :: 0 <= i < |name| ==> IsWordChar(name[i])
    ensures Compile(p + [':'] + name) == Lits(p) + [Param(name)]
  {
    var q := [':'] + name;
    WordPrefixOfWord(name);
    assert q[0] == ':' && q[1..] == name && q[1] == name[0];
    assert IsWordChar(q[1]);
    assert WordPrefix(q[1..]) == name;
    assert NextToken(q) == (Param(name), 1 + |name|);
    assert q[1 + |name|..] == [];
    assert Compile(q) == [Param(name)] + Compile([]);
    CompileLits(p, q);
    assert p + [':'] + name == p + q;
  }

  /** `p:name` matches exactly the paths that continue `p` with one segment, and
      captures that segment. */
  lemma TrailingPlaceholder(p: string, name: string, path: string)
    requires ':' !in p && |name| > 0 && forall i :: 0 <= i < |name| ==> IsWordChar(name[i])
    ensures Match(Compile(p + [':'] + name), path)
      == if |p| < |path| && path[..|p|] == p && IsSegment(path[|p|..]) then Some([path[|p|..]]) else None
  {
    TrailingPlaceholderTokens(p, name);
    MatchLitsThen(p, [Param(name)], path);
    if |p| <= |path| {
      SinglePlaceholder(name, path[|p|..]);
    }
  }

  // ----- dispatch -----

  /** Whether a route takes a request: same method, and its pattern matches the path. */
  predicate Takes<H>(route: Route<H>, verb: string, path: string) {
    route.verb == verb && Match(Compile(route.pattern), path).Some?
  }

  /** The position of the first route from `i` on that takes the request. */
  function FirstTaker<H>(routes: seq<Route<H>>, verb: string, path: string, i: nat): (r: Option<nat>)
    requires i <= |routes|
    ensures r.Some? ==> i <= r.value < |routes| && Takes(routes[r.value], verb, path)
    ensures r.Some? ==> forall j :: i <= j < r.value ==> !Takes(routes[j], verb, path)
    ensures r.None? ==> forall j :: i <= j < |routes| ==> !Takes(routes[j], verb, path)
    decreases |routes| - i
  {
    if i == |routes| then None
    else if routes[i].verb != verb then FirstTaker(routes, verb, path, i + 1)
    else if Match(Compile(routes[i].pattern), path).Some? then Some(i)
    else FirstTaker(routes, verb, path, i + 1)
  }

  /** What `dispatch` does: call the handler of a route with the captures, or answer
      that no route exists. */
  datatype Target<H> = Call(handler: H, args: seq<string>) | NoRoute

  const NoRouteResponse: Response := Response(404, ErrorBody("Not Found", "The requested endpoint does not exist"))
  const ServerErrorResponse: Response := Response(500, ErrorBody("Internal Server Error", "An unexpected error occurred"))

  /** `dispatch($method, $uri)`: the first route, in registration order, whose method is
      the request's and whose pattern matches the path of the URI, with its captures;
      otherwise no route. */
  function Dispatch<H>(routes: seq<Route<H>>, verb: string, uri: string): (r: Target<H>)
    ensures r.NoRoute? <==> forall j :: 0 <= j < |routes| ==> !Takes(routes[j], verb, Path(uri))
    ensures r.Call? ==> exists j :: (0 <= j < |routes|
      && Takes(routes[j], verb, Path(uri))
      && (forall k :: 0 <= k < j ==> !Takes(routes[k], verb, Path(uri)))
      && r.handler == routes[j].handler
      && Some(r.args) == Match(Compile(routes[j].pattern), Path(uri)))
  {
    var path := Path(uri);
    match FirstTaker(routes, verb, path, 0)
    case None => NoRoute
    case Some(j) => Call(routes[j].handler, Match(Compile(routes[j].pattern), path).value)
  }

  /** The route at `j` handles the request when it takes it and no route before it
      does. */
  lemma DispatchTo<H>(routes: seq<Route<H>>, verb: string, uri: string, j: nat)
    requires j < |routes| && Takes(routes[j], verb, Path(uri))
    requires forall k :: 0 <= k < j ==> !Takes(routes[k], verb, Path(uri))
    ensures Dispatch(routes, verb, uri)
      == Call(routes[j].handler, Match(Compile(routes[j].pattern), Path(uri)).value)
  {
    var r := FirstTaker(routes, verb, Path(uri), 0);
    assert r.Some?;
    assert !(r.value < j) && !(j < r.value);
  }

  /** `run()`: what the handler returned, or the generic 500 answer when it threw. */
  function Respond(outcome: Result<Response>): (r: Response)
    ensures outcome.Success? ==> r == outcome.value
    ensures outcome.Failure? ==> r == ServerErrorResponse
  {
    match outcome
    case Success(resp) => resp
    case Failure(_) => ServerErrorResponse
  }

  // ----- properties of dispatch -----

  /** The query string and fragment play no part in routing. */
  lemma QueryIsIgnored<H>(routes: seq<Route<H>>, verb: string, path: string, suffix: string)
    requires '?' !in path && '#' !in path
    requires suffix == [] || suffix[0] == '?' || suffix[0] == '#'
    ensures Dispatch(routes, verb, path + suffix) == Dispatch(routes, verb, path)
  {
    PathOfPath(path, suffix);
  }

  /** The path of `path` followed by a query string or fragment is `path`, scrubbed. */
  lemma PathOfPath(path: string, suffix: string)
    requires '?' !in path && '#' !in path
    requires suffix == [] || suffix[0] == '?' || suffix[0] == '#'
    ensures Path(path + suffix) == Scrubbed(path) && Path(path) == Scrubbed(path)
  {
    BeforeQueryOfPath(path, suffix);
  }

  lemma {:induction false} BeforeQueryOfPath(path: string, suffix: string)
    requires '?' !in path && '#' !in path
    requires suffix == [] || suffix[0] == '?' || suffix[0] == '#'
    ensures BeforeQuery(path + suffix) == path && BeforeQuery(path) == path
    decreases |path|
  {
    if path == [] {
      assert path + suffix == suffix;
    } else {
      assert (path + suffix)[0] == path[0];
      assert (path + suffix)[1..] == path[1..] + suffix;
      BeforeQueryOfPath(path[1..], suffix);
    }
  }

  /** A route registered later never shadows an earlier one that takes the request. */
  lemma LaterRoutesDoNotShadow<H>(routes: seq<Route<H>>, verb: string, pattern: string, handler: H, uri: string)
    requires Dispatch(routes, verb, uri).Call?
    ensures Dispatch(AddRoute(routes, verb, pattern, handler), verb, uri) == Dispatch(routes, verb, uri)
  {
    var path := Path(uri);
    var more := AddRoute(routes, verb, pattern, handler);
    var j := FirstTaker(routes, verb, path, 0).value;
    assert more[j] == routes[j];
    FirstTakerOfExtension(routes, more, verb, path, 0);
  }

  lemma {:induction false} FirstTakerOfExtension<H>(routes: seq<Route<H>>, more: seq<Route<H>>, verb: string, path: string, i: nat)
    requires i <= |routes| <= |more| && more[..|routes|] == routes
    requires FirstTaker(routes, verb, path, i).Some?
    ensures FirstTaker(more, verb, path, i) == FirstTaker(routes, verb, path, i)
    decreases |routes| - i
  {
    assert more[i] == routes[i];
    if !Takes(routes[i], verb, path) {
      FirstTakerOfExtension(routes, more, verb, path, i + 1);
    }
  }

  /** A route of another method is never chosen, whatever its pattern. */
  lemma OtherMethodsAreSkipped<H>(routes: seq<Route<H>>, verb: string, other: string, pattern: string, handler: H, uri: string)
    requires other != verb
    ensures Dispatch(AddRoute(routes, other, pattern, handler), verb, uri).NoRoute?
      <==> Dispatch(routes, verb, uri).NoRoute?
  {
    var more := AddRoute(routes, other, pattern, handler);
    assert forall j :: 0 <= j < |routes| ==> more[j] == routes[j];
  }
}
