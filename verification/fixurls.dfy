/**
 The URL rewriting script (`fix-urls.js`): for every `.js`/`.jsx` file of a
 source tree it replaces the hard-coded `http://localhost:4000` by
 `${API_URL}` and, when needed, inserts the two-line `API_URL` declaration
 after the import block. File reads, writes and directory listings are
 given as an abstract tree whose entries say what each `fs` call returns.
 */
module FixUrls {
  import opened Common
  import opened Text

  const LocalUrl := "http://localhost:4000"
  const ApiRef := "${API_URL}"

  /** Files that are skipped once they use the new pattern. */
  const AlreadyUpdatedFiles := ["Book.jsx", "Readbook.jsx"]

  // The two declaration lines, written in short pieces so that the verifier
  // can inspect their characters one piece at a time.
  const IsProductionLine := "const isProduction = " + "window.location.hostname" + ".includes('github.io');"
  const ApiUrlLine := "const API_URL = " + "isProduction ? " + "'https://book-api" + ".onrender.com' : "
    + "'http://localhost:" + "10000';"

  /** The inserted block: a blank line, then the two declarations, each ending a line. */
  const Declaration := "\n" + IsProductionLine + "\n" + ApiUrlLine + "\n"

  // ---------------------------------------------------------------------------
  // Skip rule

  /** A listed file that already mentions `API_URL` or `isProduction` is left alone. */
  predicate AlreadyUpdated(name: string, content: string)
    ensures AlreadyUpdated(name, content) <==>
      (name == "Book.jsx" || name == "Readbook.jsx") &&
      ((exists k :: OccursAt(content, "API_URL", k)) || (exists k :: OccursAt(content, "isProduction", k)))
  {
    (Contains(content, "API_URL") || Contains(content, "isProduction")) && name in AlreadyUpdatedFiles
  }

  // ---------------------------------------------------------------------------
  // Pass 1: the literal URL

  /**
   `content.replace(/http:\/\/localhost:4000/g, '${API_URL}')`, run only when
   the URL is present. It is split-then-join on the URL: everything between
   occurrences keeps its characters and order, each occurrence becomes
   exactly `${API_URL}`, and no occurrence of the URL is left.
   */
  function FirstPass(c: string): (r: string)
    ensures r == Join(Split(c, LocalUrl), ApiRef)
    ensures !Contains(r, LocalUrl)
    ensures !Contains(c, LocalUrl) ==> r == c
  {
    ReplaceAllIsSplitJoin(c, LocalUrl, ApiRef);
    UrlAndRefDisjoint();
    if Contains(c, LocalUrl) then
      ReplaceAllRemovesAll(c, LocalUrl, ApiRef);
      ReplaceAll(c, LocalUrl, ApiRef)
    else
      ReplaceAllNoMatch(c, LocalUrl, ApiRef);
      c
  }

  lemma UrlAndRefDisjoint()
    ensures Disjoint(LocalUrl, ApiRef)
  {
    var ref := ApiRef;
    forall i, j | 0 <= i < |LocalUrl| && 0 <= j < |ref|
      ensures LocalUrl[i] != ref[j]
    {
      assert LocalUrl[i] in "htp:/locas40";
      assert ref[j] in "${APIURL}_";
    }
  }

  /** Two occurrences of the URL never overlap. */
  lemma UrlBorderFree()
    ensures BorderFree(LocalUrl)
  {
    var url := LocalUrl;
    forall d | 0 < d < |url|
      ensures url[d..] != url[..|url| - d]
    {
      assert url[..12] == "http://local" && url[12..] == "host:4000";
      if d == 12 {
        assert url[d..][1] == 'o';
        assert url[..|url| - d][1] == url[..12][1] == 't';
      } else if d < 12 {
        assert url[d..][0] == url[..12][d] && url[..12][d] in "ttp://local";
      } else {
        assert url[d..][0] == url[12..][d - 12] && url[12..][d - 12] in "ost:4000";
      }
    }
  }

  /**
   Pass 1 rewrites the URL where it stands and touches nothing around it:
   any quote before the URL stays, so a URL written in plain quotes becomes
   `${API_URL}` inside those same quotes.
   */
  lemma FirstPassAround(x: string, y: string)
    requires !Contains(x, LocalUrl)
    ensures FirstPass(x + LocalUrl + y) == x + ApiRef + FirstPass(y)
  {
    UrlBorderFree();
    ReplaceAllAround(x, LocalUrl, ApiRef, y);
    if !Contains(y, LocalUrl) {
      ReplaceAllNoMatch(y, LocalUrl, ApiRef);
    }
    assert OccursAt(x + LocalUrl + y, LocalUrl, |x|) by {
      assert (x + LocalUrl + y)[|x|..|x| + |LocalUrl|] == LocalUrl;
    }
  }

  /**
   A URL in a single-quoted string, as in `fetch('http://localhost:4000/cart')`,
   keeps its single quotes: the result is `'${API_URL}/cart'`, not a template
   literal.
   */
  lemma QuotedUrlStaysQuoted()
    ensures FirstPass("fetch('" + LocalUrl + "/cart')") == "fetch('" + ApiRef + "/cart')"
  {
    assert !Contains("fetch('", LocalUrl);
    assert !Contains("/cart')", LocalUrl);
    FirstPassAround("fetch('", "/cart')");
  }

  // ---------------------------------------------------------------------------
  // Passes 2 and 3: the regular expressions that also need the URL

  predicate IsQuote(ch: char) {
    ch == '\'' || ch == '"' || ch == '`'
  }

  /** The first quote character at or after `j`, or `|s|` when there is none. */
  function FirstQuoteFrom(s: string, j: nat): (q: nat)
    requires j <= |s|
    ensures j <= q <= |s|
    ensures q < |s| ==> IsQuote(s[q])
    ensures forall i | j <= i < q :: !IsQuote(s[i])
    decreases |s| - j
  {
    if j == |s| || IsQuote(s[j]) then j else FirstQuoteFrom(s, j + 1)
  }

  /**
   Pass 2 is `fetch\(['"`]http:\/\/localhost:4000\/([^'"`]+)['"`]\)` and
   pass 3 is `['"`]http:\/\/localhost:4000\/([^'"`]*)['"`]`.
   */
  datatype Pattern = FetchCall | QuotedUrl

  /** Where the URL sits inside a match of the pattern. */
  function UrlOffset(p: Pattern): nat {
    match p
    case FetchCall => 7
    case QuotedUrl => 1
  }

  /** What precedes the URL in a match: `fetch(` and a quote, or just a quote. */
  predicate Opens(p: Pattern, s: string, k: nat)
    requires k + UrlOffset(p) <= |s|
  {
    match p
    case FetchCall => OccursAt(s, "fetch(", k) && IsQuote(s[k + 6])
    case QuotedUrl => IsQuote(s[k])
  }

  /**
   The end of the match of `p` that starts at `k`, if there is one. The
   class `[^'"`]` stops at the first quote, so the greedy group ends there
   and the match is decided by what follows that quote.
   */
  function MatchAt(p: Pattern, s: string, k: nat): (e: Option<nat>)
    ensures e.Some? ==> k < e.value <= |s|
    ensures e.Some? ==> OccursAt(s, LocalUrl, k + UrlOffset(p))
  {
    var url := k + UrlOffset(p);
    var body := url + |LocalUrl| + 1;
    if body <= |s| && Opens(p, s, k) && OccursAt(s, LocalUrl, url) && s[url + |LocalUrl|] == '/' then
      var q := FirstQuoteFrom(s, body);
      match p
      case FetchCall => if body < q && q + 1 < |s| && s[q + 1] == ')' then Some(q + 2) else None
      case QuotedUrl => if q < |s| then Some(q + 1) else None
    else None
  }

  /**
   `[...s.matchAll(regex)].length` from position `i`: leftmost matches,
   without overlap. Both patterns contain the URL, so text without it has
   no match.
   */
  function CountMatches(p: Pattern, s: string, i: nat): (n: nat)
    ensures i <= |s| ==> n <= |s| - i
    ensures !Contains(s, LocalUrl) ==> n == 0
    decreases |s| - i
  {
    if i >= |s| then 0
    else match MatchAt(p, s, i)
      case Some(e) => 1 + CountMatches(p, s, e)
      case None => CountMatches(p, s, i + 1)
  }

  // ---------------------------------------------------------------------------
  // The declaration splice

  /**
   The insertion point: just after the first newline that follows the
   first `from` after the last `import` (JavaScript clamps the -1 of a
   missing `import` or `from` to position 0); 0 when no newline follows.
   */
  function ImportEndLine(c: string): (e: nat)
    ensures e <= |c|
    ensures e > 0 ==> c[e - 1] == '\n'
    ensures var start := ClampPosition(c, IndexOf(c, "from", LastIndexOf(c, "import")));
      && (e == 0 <==> forall k | start <= k < |c| :: c[k] != '\n')
      && (e > 0 ==> start < e && forall k | start <= k < e - 1 :: c[k] != '\n')
  {
    var importEnd := LastIndexOf(c, "import");
    var fromIndex := IndexOf(c, "from", importEnd);
    var newline := IndexOf(c, "\n", fromIndex);
    NewlineSearch(c, fromIndex);
    newline + 1
  }

  /** `indexOf("\n", start)` finds exactly the first newline at or after `start`. */
  lemma NewlineSearch(c: string, pos: int)
    ensures var start := ClampPosition(c, pos); var n := IndexOf(c, "\n", pos);
      && (n < 0 <==> forall k | start <= k < |c| :: c[k] != '\n')
      && (n >= 0 ==> start <= n < |c| && c[n] == '\n' && forall k | start <= k < n :: c[k] != '\n')
  {
    var start := ClampPosition(c, pos);
    var n := IndexOf(c, "\n", pos);
    forall k | start <= k < |c| && (n < 0 || k < n)
      ensures c[k] != '\n'
    {
      assert !OccursAt(c, "\n", k);
      assert c[k..k + 1] == [c[k]];
    }
    if n >= 0 {
      assert c[n] == c[n..n + 1][0];
    }
  }

  /** `c.slice(0, at) + block + c.slice(at)`. */
  function Splice(c: string, at: nat, block: string): (r: string)
    requires at <= |c|
    ensures |r| == |c| + |block|
    ensures r[..at] == c[..at]
    ensures r[at..at + |block|] == block
    ensures r[at + |block|..] == c[at..]
  {
    c[..at] + block + c[at..]
  }

  /** Whether the declaration is added: some change was made and no declaration is already there. */
  predicate NeedsDeclaration(changes: nat, c: string) {
    changes > 0 && !Contains(c, "const API_URL") && !Contains(c, "API_URL =")
  }

  /** No character of `s` is `ch`. */
  predicate Avoids(s: string, ch: char) {
    forall i | 0 <= i < |s| :: s[i] != ch
  }

  lemma AvoidsConcat(a: string, b: string, ch: char)
    requires Avoids(a, ch) && Avoids(b, ch)
    ensures Avoids(a + b, ch)
  {
    forall i | 0 <= i < |a + b|
      ensures (a + b)[i] != ch
    {
      if i < |a| {
        assert (a + b)[i] == a[i];
      } else {
        assert (a + b)[i] == b[i - |a|];
      }
    }
  }

  /** A text without the character `4` cannot hold the URL. */
  lemma AvoidsFourHasNoUrl(s: string)
    requires Avoids(s, '4')
    ensures !Contains(s, LocalUrl)
  {
    forall k | 0 <= k && k + |LocalUrl| <= |s|
      ensures !OccursAt(s, LocalUrl, k)
    {
      assert s[k..k + |LocalUrl|][17] == s[k + 17];
    }
  }

  lemma DeclarationHasNoUrl()
    ensures !Contains(IsProductionLine + "\n" + ApiUrlLine, LocalUrl)
  {
    var p1, p2, p3 := "const isProduction = ", "window.location.hostname", ".includes('github.io');";
    assert Avoids(p1, '4') && Avoids(p2, '4') && Avoids(p3, '4');
    AvoidsConcat(p1, p2, '4');
    AvoidsConcat(p1 + p2, p3, '4');
    var a1, a2, a3 := "const API_URL = ", "isProduction ? ", "'https://book-api";
    var a4, a5, a6 := ".onrender.com' : ", "'http://localhost:", "10000';";
    assert Avoids(a1, '4') && Avoids(a2, '4') && Avoids(a3, '4');
    assert Avoids(a4, '4') && Avoids(a5, '4') && Avoids(a6, '4');
    AvoidsConcat(a1, a2, '4');
    AvoidsConcat(a1 + a2, a3, '4');
    AvoidsConcat(a1 + a2 + a3, a4, '4');
    AvoidsConcat(a1 + a2 + a3 + a4, a5, '4');
    AvoidsConcat(a1 + a2 + a3 + a4 + a5, a6, '4');
    assert Avoids("\n", '4');
    AvoidsConcat(IsProductionLine, "\n", '4');
    AvoidsConcat(IsProductionLine + "\n", ApiUrlLine, '4');
    AvoidsFourHasNoUrl(IsProductionLine + "\n" + ApiUrlLine);
  }

  /** Text without the URL on both sides of a newline-framed block without it has no URL. */
  lemma FramedKeepsUrlOut(x: string, mid: string, y: string)
    requires !Contains(x, LocalUrl) && !Contains(mid, LocalUrl) && !Contains(y, LocalUrl)
    ensures !Contains(x + ("\n" + mid + "\n") + y, LocalUrl)
  {
    assert '\n' !in LocalUrl;
    NotContainsAround(mid, '\n', y, LocalUrl);
    NotContainsAround(x, '\n', mid + "\n" + y, LocalUrl);
    assert x + ("\n" + mid + "\n") + y == x + ['\n'] + (mid + ['\n'] + y);
  }

  /** Splicing the declaration into text without the URL creates no URL. */
  lemma {:induction false} SpliceKeepsUrlOut(c: string, at: nat)
    requires at <= |c|
    requires !Contains(c, LocalUrl)
    ensures !Contains(Splice(c, at, Declaration), LocalUrl)
  {
    var mid := IsProductionLine + "\n" + ApiUrlLine;
    assert Declaration == "\n" + mid + "\n";
    NotContainsSlice(c, LocalUrl, 0, at);
    NotContainsSlice(c, LocalUrl, at, |c|);
    assert c[0..at] == c[..at] && c[at..|c|] == c[at..];
    DeclarationHasNoUrl();
    FramedKeepsUrlOut(c[..at], mid, c[at..]);
  }

  // ---------------------------------------------------------------------------
  // One file

  /** The number of changes counted and the text that results. */
  datatype Rewrite = Rewrite(changes: nat, content: string)

  /**
   The rewriting part of `replaceInFile` for a file that is not skipped:
   pass 1 counts one change when the URL is present; passes 2 and 3 count
   their matches in the text pass 1 left (there are none, so the text they
   would rewrite stays as it is); the declaration is spliced in last.
   */
  function RewriteContent(c: string): (r: Rewrite)
    ensures r.changes <= 1
    ensures r.changes == 1 <==> Contains(c, LocalUrl)
    ensures !Contains(r.content, LocalUrl)
    ensures r.changes == 0 ==> r.content == c
    ensures NeedsDeclaration(r.changes, FirstPass(c)) ==>
      r.content == Splice(FirstPass(c), ImportEndLine(FirstPass(c)), Declaration)
    ensures !NeedsDeclaration(r.changes, FirstPass(c)) ==> r.content == FirstPass(c)
  {
    var direct := if Contains(c, LocalUrl) then 1 else 0;
    var c1 := FirstPass(c);
    var fetches := CountMatches(FetchCall, c1, 0);
    var c2 := c1;
    var strings := CountMatches(QuotedUrl, c2, 0);
    var changes := direct + fetches + strings;
    if NeedsDeclaration(changes, c2) then
      var at := ImportEndLine(c2);
      SpliceKeepsUrlOut(c2, at);
      Rewrite(changes, Splice(c2, at, Declaration))
    else Rewrite(changes, c2)
  }

  /** Whether `replaceInFile` returned true, and the text written to the file, if any. */
  datatype FileResult = FileResult(fixed: bool, written: Option<string>)

  /**
   `replaceInFile` for a file named `name` whose read yields `content`
   (`None` when `readFileSync` throws) and whose write succeeds exactly
   when `writable`; every exception is caught and reported as `false`.
   */
  function ReplaceInFile(name: string, content: Option<string>, writable: bool): (r: FileResult)
    ensures r.fixed <==> r.written.Some?
    ensures r.fixed <==>
      content.Some? && !AlreadyUpdated(name, content.value) && Contains(content.value, LocalUrl) && writable
    ensures r.written.Some? ==> r.written.value == RewriteContent(content.value).content
    ensures r.written.Some? ==> !Contains(r.written.value, LocalUrl)
  {
    if content.None? then FileResult(false, None)
    else if AlreadyUpdated(name, content.value) then FileResult(false, None)
    else
      var rw := RewriteContent(content.value);
      if rw.changes > 0 && writable then FileResult(true, Some(rw.content))
      else FileResult(false, None)
  }

  /** A listed file that already uses the new pattern is reported unchanged and never written. */
  lemma SkippedFileUntouched(name: string, content: string, writable: bool)
    requires name in AlreadyUpdatedFiles
    requires Contains(content, "API_URL") || Contains(content, "isProduction")
    ensures ReplaceInFile(name, Some(content), writable) == FileResult(false, None)
  {
  }

  /** Running the rewrite again on what it wrote changes nothing. */
  lemma ReplaceInFileIdempotent(name: string, content: Option<string>, writable: bool)
    ensures var r := ReplaceInFile(name, content, writable);
      r.fixed ==> !ReplaceInFile(name, r.written, writable).fixed
  {
  }

  // ---------------------------------------------------------------------------
  // The folder walk

  /**
   A directory entry: a file with what reading it yields and whether
   writing it succeeds, or a directory with its entries (`listable` is
   false when `readdirSync` throws on it, and its entries are then unused).
   */
  datatype Entry =
    | File(name: string, content: Option<string>, writable: bool)
    | Dir(name: string, listable: bool, children: seq<Entry>)

  predicate ExcludedDir(name: string) {
    name == "node_modules" || name == "dist"
  }

  /** The name ends in `.jsx` or in `.js`. */
  predicate IsScript(name: string)
    ensures IsScript(name) <==> OccursAt(name, ".jsx", |name| - 4) || OccursAt(name, ".js", |name| - 3)
  {
    EndsWith(name, ".jsx") || EndsWith(name, ".js")
  }

  /** Whether the walk descends into an entry that is a directory. */
  predicate Descends(e: Entry)
    requires e.Dir?
  {
    !ExcludedDir(e.name) && e.listable
  }

  /** `processFolder`'s count over the entries of a listed folder, in listing order. */
  function ProcessEntries(es: seq<Entry>): (count: nat)
    ensures count == CountFixed(Considered(es))
    ensures count <= |Considered(es)|
    decreases es
  {
    if es == [] then 0
    else
      var rest := ProcessEntries(es[1..]);
      match es[0]
      case Dir(_, _, children) =>
        if Descends(es[0]) then
          CountFixedAppend(Considered(children), Considered(es[1..]));
          ProcessEntries(children) + rest
        else
          CountFixedAppend([], Considered(es[1..]));
          rest
      case File(n, c, w) =>
        CountFixedAppend(if IsScript(n) then [es[0]] else [], Considered(es[1..]));
        (if IsScript(n) && ReplaceInFile(n, c, w).fixed then 1 else 0) + rest
  }

  /** `processFolder(folder)`: a folder that cannot be listed counts nothing. */
  function ProcessFolder(folder: Entry): (n: nat)
    requires folder.Dir?
    ensures !folder.listable ==> n == 0
    ensures folder.listable ==>
      n == CountFixed(Considered(folder.children)) && n <= |Considered(folder.children)|
  {
    if folder.listable then ProcessEntries(folder.children) else 0
  }

  /**
   The files the walk hands to `replaceInFile`, in visiting order: script
   files, never anything below `node_modules` or `dist`.
   */
  function Considered(es: seq<Entry>): (fs: seq<Entry>)
    ensures forall i | 0 <= i < |fs| :: fs[i].File? && IsScript(fs[i].name)
    decreases es
  {
    if es == [] then []
    else
      var here := match es[0]
        case Dir(_, _, children) => if Descends(es[0]) then Considered(children) else []
        case File(n, _, _) => if IsScript(n) then [es[0]] else [];
      here + Considered(es[1..])
  }

  /** How many of the given files `replaceInFile` reports as fixed. */
  function CountFixed(fs: seq<Entry>): (n: nat)
    ensures n <= |fs|
  {
    if fs == [] then 0
    else
      (if fs[0].File? && ReplaceInFile(fs[0].name, fs[0].content, fs[0].writable).fixed then 1 else 0)
      + CountFixed(fs[1..])
  }

  lemma {:induction false} CountFixedAppend(xs: seq<Entry>, ys: seq<Entry>)
    ensures CountFixed(xs + ys) == CountFixed(xs) + CountFixed(ys)
  {
    if xs == [] {
      assert xs + ys == ys;
    } else {
      assert (xs + ys)[0] == xs[0] && (xs + ys)[1..] == xs[1..] + ys;
      CountFixedAppend(xs[1..], ys);
    }
  }

  /** An excluded directory contributes nothing, whatever it holds. */
  lemma ExcludedDirIgnored(name: string, listable: bool, children: seq<Entry>, rest: seq<Entry>)
    requires ExcludedDir(name)
    ensures Considered([Dir(name, listable, children)] + rest) == Considered(rest)
    ensures ProcessEntries([Dir(name, listable, children)] + rest) == ProcessEntries(rest)
  {
    var es := [Dir(name, listable, children)] + rest;
    assert es[0] == Dir(name, listable, children) && es[1..] == rest;
  }

  /** The entry after the walk: a fixed file now holds what was written to it. */
  function AfterWrite(e: Entry): (e': Entry)
    ensures e'.name == e.name && e'.File? == e.File?
    ensures e.File? && IsScript(e.name) && ReplaceInFile(e.name, e.content, e.writable).fixed ==>
      e'.writable == e.writable && e'.content.Some? && !Contains(e'.content.value, LocalUrl)
    ensures e.File? && IsScript(e.name) && ReplaceInFile(e.name, e.content, e.writable).fixed ==>
      e'.content == ReplaceInFile(e.name, e.content, e.writable).written
    ensures e.File? && !(IsScript(e.name) && ReplaceInFile(e.name, e.content, e.writable).fixed) ==> e' == e
    ensures e.Dir? ==> e'.listable == e.listable && |e'.children| == |e.children|
    ensures e.Dir? && Descends(e) ==> e'.children == AfterWrites(e.children)
    ensures e.Dir? && !Descends(e) ==> e' == e
    decreases e, 0
  {
    match e
    case Dir(n, ok, children) =>
      if Descends(e) then Dir(n, ok, AfterWrites(children)) else e
    case File(n, c, w) =>
      var r := ReplaceInFile(n, c, w);
      if IsScript(n) && r.fixed then File(n, r.written, w) else e
  }

  function AfterWrites(es: seq<Entry>): (es': seq<Entry>)
    ensures |es'| == |es|
    ensures forall i | 0 <= i < |es| :: es'[i] == AfterWrite(es[i])
    decreases es, 1
  {
    if es == [] then [] else [AfterWrite(es[0])] + AfterWrites(es[1..])
  }

  /** A second run of the script over the rewritten tree fixes no file. */
  lemma {:induction false} SecondRunFixesNothing(es: seq<Entry>)
    ensures ProcessEntries(AfterWrites(es)) == 0
    decreases es
  {
    if es != [] {
      var es' := AfterWrites(es);
      SecondRunFixesNothing(es[1..]);
      assert es'[0] == AfterWrite(es[0]);
      assert es'[1..] == AfterWrites(es[1..]);
      match es[0]
      case Dir(n, ok, children) =>
        if Descends(es[0]) {
          SecondRunFixesNothing(children);
        }
      case File(n, c, w) =>
        if IsScript(n) && ReplaceInFile(n, c, w).fixed {
          ReplaceInFileIdempotent(n, c, w);
        }
    }
  }
}
