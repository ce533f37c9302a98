/**
 The deterministic part of src/Infrastructure/ExternalService/OpenFoodFactsClient.php.
 The network is replaced by the outcomes of successive download attempts and `sleep` by
 the list of pauses the retry loop asks for; `json_decode` is an oracle.
 */
module OpenFoodFactsClient {
  import opened Core
  import opened Text
  import opened Products

  datatype Client = Client(baseUrl: string, timeout: int)

  /** The constructor: trailing slashes are stripped from the base URL. */
  function New(baseUrl: string, timeout: int): (c: Client)
    ensures |c.baseUrl| <= |baseUrl| && c.baseUrl == baseUrl[..|c.baseUrl|]
    ensures forall i :: |c.baseUrl| <= i < |baseUrl| ==> baseUrl[i] == '/'
    ensures c.baseUrl == [] || c.baseUrl[|c.baseUrl| - 1] != '/'
    ensures c.timeout == timeout
  {
    Client(RTrim(baseUrl, '/'), timeout)
  }

  const IndexFile: string := "index.txt"

  /** The index is fetched like any other file of the feed. */
  function ListUrl(c: Client): (r: string)
    ensures r == FileUrl(c, IndexFile)
  {
    c.baseUrl + "/" + IndexFile
  }

  /** The URL of a feed file: the base URL, one `/`, then the file name. */
  function FileUrl(c: Client, filename: string): (r: string)
    ensures |r| == |c.baseUrl| + 1 + |filename|
    ensures r[..|c.baseUrl|] == c.baseUrl && r[|c.baseUrl|] == '/'
    ensures r[|c.baseUrl| + 1..] == filename
  {
    c.baseUrl + "/" + filename
  }

  /** Different files of one feed are fetched from different URLs. */
  lemma FileUrlInjective(c: Client, a: string, b: string)
    requires FileUrl(c, a) == FileUrl(c, b)
    ensures a == b
  {
    assert a == FileUrl(c, a)[|c.baseUrl| + 1..];
  }

  /** With a client made by the constructor, the join is the only slash there: the
      base URL never ends with one. */
  lemma FileUrlOfNew(baseUrl: string, timeout: int, filename: string)
    ensures var c := New(baseUrl, timeout); var u := FileUrl(c, filename);
      |c.baseUrl| > 0 ==> u[|c.baseUrl| - 1] != '/'
  {
    var c := New(baseUrl, timeout);
    var u := FileUrl(c, filename);
    if |c.baseUrl| > 0 {
      assert u[|c.baseUrl| - 1] == u[..|c.baseUrl|][|c.baseUrl| - 1];
    }
  }

  /** One download attempt: the body, or a failure with the message PHP's last error
      carried, if any. */
  datatype Attempt = Received(content: string) | TransportFailed(lastError: Option<string>)

  /** Enough attempt outcomes for the default three tries. */
  type Answers = s: seq<Attempt> | |s| >= 3
    witness [TransportFailed(None), TransportFailed(None), TransportFailed(None)]

  /** The message of the exception a failed attempt raises. */
  function FailureMessage(a: Attempt): string
    requires a.TransportFailed?
  {
    if a.lastError.Some? then a.lastError.value else "Unknown error"
  }

  /** What a call of `fetchUrl` did: its outcome, how many attempts it made and the
      pauses, in seconds, it slept between them. */
  datatype Fetch = Fetch(result: Result<string>, attempts: nat, sleeps: seq<nat>)

  function RetriesExhausted(url: string, maxRetries: int, last: string): Exception {
    Runtime("Failed to fetch " + url + " after " + IntToString(maxRetries) + " attempts: " + last)
  }

  /** The retry loop from attempt number `attempt` (counting from 0) on. */
  function Retry(url: string, answers: seq<Attempt>, maxRetries: nat, attempt: nat): (f: Fetch)
    requires attempt < maxRetries <= |answers|
    ensures attempt < f.attempts <= maxRetries
    ensures forall j :: attempt <= j < f.attempts - 1 ==> answers[j].TransportFailed?
    ensures f.result.Success? ==> answers[f.attempts - 1] == Received(f.result.value)
    ensures f.result.Failure? ==> f.attempts == maxRetries && answers[maxRetries - 1].TransportFailed?
    ensures f.result.Failure? ==>
      f.result.error == RetriesExhausted(url, maxRetries, FailureMessage(answers[maxRetries - 1]))
    ensures |f.sleeps| == f.attempts - 1 - attempt
    ensures forall i :: 0 <= i < |f.sleeps| ==> f.sleeps[i] == Pow2(attempt + i)
    decreases maxRetries - attempt
  {
    match answers[attempt]
    case Received(content) => Fetch(Success(content), attempt + 1, [])
    case TransportFailed(_) =>
      if attempt + 1 < maxRetries then
        var rest := Retry(url, answers, maxRetries, attempt + 1);
        DoublingPauses(rest.sleeps, attempt);
        rest.(sleeps := [Pow2(attempt)] + rest.sleeps)
      else
        Fetch(Failure(RetriesExhausted(url, maxRetries, FailureMessage(answers[attempt]))), maxRetries, [])
  }

  /** One more pause in front of pauses that double from `2^(attempt+1)` on. */
  lemma DoublingPauses(rest: seq<nat>, attempt: nat)
    requires forall i :: 0 <= i < |rest| ==> rest[i] == Pow2(attempt + 1 + i)
    ensures forall i :: 0 <= i < |rest| + 1 ==> ([Pow2(attempt)] + rest)[i] == Pow2(attempt + i)
  {
    forall i | 0 <= i < |rest| + 1
      ensures ([Pow2(attempt)] + rest)[i] == Pow2(attempt + i)
    {
      if i > 0 {
        assert ([Pow2(attempt)] + rest)[i] == rest[i - 1];
      }
    }
  }

  /** `fetchUrl($url, $maxRetries)`: the body of the first successful attempt, or after
      `maxRetries` failures an exception that reports the last one. Failure `k` is
      followed by a pause of 2^(k-1) seconds unless it was the last attempt. */
  function FetchUrl(url: string, answers: seq<Attempt>, maxRetries: nat): (f: Fetch)
    requires 1 <= maxRetries <= |answers|
    ensures 1 <= f.attempts <= maxRetries
    ensures forall j :: 0 <= j < f.attempts - 1 ==> answers[j].TransportFailed?
    ensures f.result.Success? ==> answers[f.attempts - 1] == Received(f.result.value)
    ensures f.result.Failure? ==> f.attempts == maxRetries
    ensures f.result.Failure? ==> forall j :: 0 <= j < maxRetries ==> answers[j].TransportFailed?
    ensures f.result.Failure? ==>
      f.result.error == RetriesExhausted(url, maxRetries, FailureMessage(answers[maxRetries - 1]))
    ensures |f.sleeps| == f.attempts - 1
    ensures forall i :: 0 <= i < |f.sleeps| ==> f.sleeps[i] == Pow2(i)
  {
    Retry(url, answers, maxRetries, 0)
  }

  /** PHP's `empty()` on a string. */
  predicate IsEmpty(s: string) {
    s == "" || s == "0"
  }

  function TrimAll(lines: seq<string>): (r: seq<string>)
    ensures |r| == |lines|
    ensures forall i :: 0 <= i < |r| ==> r[i] == Trim(lines[i])
  {
    seq(|lines|, i requires 0 <= i < |lines| => Trim(lines[i]))
  }

  /** `array_filter` without a callback on strings: the falsy `""` and `"0"` go. */
  function DropFalsy(lines: seq<string>): (r: seq<string>)
    ensures |r| <= |lines|
    ensures forall x :: x in r <==> x in lines && !IsEmpty(x)
  {
    if lines == [] then []
    else if IsEmpty(lines[0]) then DropFalsy(lines[1..])
    else [lines[0]] + DropFalsy(lines[1..])
  }

  /** `array_filter` keeps one line on its own exactly when it is not falsy. */
  lemma DropFalsyOfLine(x: string)
    ensures DropFalsy([x]) == if IsEmpty(x) then [] else [x]
  {
    assert [x][1..] == [];
  }

  /** `array_filter` works line by line: filtering a concatenation concatenates the
      filtered parts, so the kept lines stay in order and each keeps its multiplicity. */
  lemma {:induction false} DropFalsyAppend(a: seq<string>, b: seq<string>)
    ensures DropFalsy(a + b) == DropFalsy(a) + DropFalsy(b)
  {
    if a != [] {
      assert (a + b)[0] == a[0];
      assert (a + b)[1..] == a[1..] + b;
      DropFalsyAppend(a[1..], b);
    } else {
      assert a + b == b;
    }
  }

  /** Lines that are all non-falsy go through `array_filter` unchanged. */
  lemma {:induction false} KeepsNonFalsy(lines: seq<string>)
    requires forall i :: 0 <= i < |lines| ==> !IsEmpty(lines[i])
    ensures DropFalsy(lines) == lines
  {
    if lines != [] {
      KeepsNonFalsy(lines[1..]);
    }
  }

  /** The body of `fetchFileList` after the download: nothing for empty content;
      otherwise the trimmed, non-falsy lines of the trimmed content, in order. */
  function ParseFileList(content: string): (names: seq<string>)
    ensures IsEmpty(content) ==> names == []
    ensures !IsEmpty(content) ==> names == DropFalsy(TrimAll(Split(Trim(content), '\n')))
    ensures forall i :: 0 <= i < |names| ==> !IsEmpty(names[i]) && IsTrimmed(names[i])
    ensures forall i :: 0 <= i < |names| ==> '\n' !in names[i]
  {
    if IsEmpty(content) then []
    else
      var lines := Split(Trim(content), '\n');
      var trimmed := TrimAll(lines);
      TrimmedLines(lines);
      DropFalsy(trimmed)
  }

  /** Trimmed lines are trimmed and, like the lines, hold no newline. */
  lemma TrimmedLines(lines: seq<string>)
    requires forall i :: 0 <= i < |lines| ==> '\n' !in lines[i]
    ensures forall i :: 0 <= i < |lines| ==> IsTrimmed(TrimAll(lines)[i])
    ensures forall i :: 0 <= i < |lines| ==> '\n' !in TrimAll(lines)[i]
  {
    forall i | 0 <= i < |lines|
      ensures IsTrimmed(TrimAll(lines)[i]) && '\n' !in TrimAll(lines)[i]
    {
      TrimIsInfix(lines[i]);
    }
  }

  /** Trimming only removes characters from the ends. */
  lemma TrimIsInfix(s: string)
    ensures forall c :: c in Trim(s) ==> c in s
  {
    var t := StripStart(s, IsTrimChar);
    var r := StripEnd(t, IsTrimChar);
    forall c | c in r
      ensures c in s
    {
      var i :| 0 <= i < |r| && r[i] == c;
      assert t[i] == c;
      assert s[|s| - |t| + i] == c;
    }
  }

  /** `fetchFileList()`. */
  function FetchFileList(c: Client, answers: Answers): (r: Result<seq<string>>)
    ensures FetchUrl(ListUrl(c), answers, 3).result.Failure? ==>
      r == Failure(FetchUrl(ListUrl(c), answers, 3).result.error)
    ensures r.Success? ==> r.value == ParseFileList(FetchUrl(ListUrl(c), answers, 3).result.value)
  {
    var f := FetchUrl(ListUrl(c), answers, 3);
    if f.result.Failure? then Failure(f.result.error) else Success(ParseFileList(f.result.value))
  }

  /** What `json_decode($content, true)` gives the client: a syntax error with its
      message, a value that is not an array, or the array's elements as records. An
      element that is not an object reads as a record without keys. */
  datatype Decoded = DecodeError(message: string) | NotArray | Records(records: seq<Payload>)

  /** `array_slice($records, 0, $limit)`: a negative limit stops that many elements
      before the end. */
  function Slice<T>(records: seq<T>, limit: int): (r: seq<T>)
    ensures |r| <= |records| && r == records[..|r|]
    ensures limit >= 0 ==> |r| == (if limit < |records| then limit else |records|)
    ensures limit < 0 ==> |r| == (if |records| + limit > 0 then |records| + limit else 0)
  {
    if limit >= 0 then
      if limit < |records| then records[..limit] else records
    else
      if |records| + limit > 0 then records[..|records| + limit] else []
  }

  function DecodeFailure(filename: string, message: string): Exception {
    Runtime("Failed to decode JSON from " + filename + ": " + message)
  }

  /** `fetchProducts($filename, $limit)`: a download failure propagates, empty content
      and non-array JSON give no records, a decode error is raised (and not retried),
      and otherwise `array_slice($products, 0, $limit)` comes back: the first `limit` records,
      or for a negative limit all but the last `-limit`. */
  function FetchProducts(c: Client, filename: string, limit: int, answers: Answers,
                         decode: string -> Decoded): (r: Result<seq<Payload>>)
    ensures var f := FetchUrl(FileUrl(c, filename), answers, 3);
      && (f.result.Failure? ==> r == Failure(f.result.error))
      && (f.result.Success? && IsEmpty(f.result.value) ==> r == Success([]))
      && (f.result.Success? && !IsEmpty(f.result.value) ==>
            match decode(f.result.value)
            case DecodeError(m) => r == Failure(DecodeFailure(filename, m))
            case NotArray => r == Success([])
            case Records(rs) =>
              (r.Success? && |r.value| <= |rs| && r.value == rs[..|r.value|]
               && (limit >= 0 ==> |r.value| == (if limit < |rs| then limit else |rs|))
               && (limit < 0 ==> |r.value| == (if |rs| + limit > 0 then |rs| + limit else 0))))
  {
    var f := FetchUrl(FileUrl(c, filename), answers, 3);
    if f.result.Failure? then Failure(f.result.error)
    else if IsEmpty(f.result.value) then Success([])
    else
      match decode(f.result.value)
      case DecodeError(m) => Failure(DecodeFailure(filename, m))
      case NotArray => Success([])
      case Records(rs) => Success(Slice(rs, limit))
  }

  /** `testConnection()`: a single attempt at the index file. */
  function TestConnection(c: Client, answers: Answers): (ok: bool)
    ensures ok <==> answers[0].Received?
  {
    FetchUrl(ListUrl(c), answers, 1).result.Success?
  }

  // ----- properties -----

  /** The feed's index, read back: a list of file names, none empty, `"0"`, untrimmed or
      holding a newline, written one per line, parses to exactly that list. */
  lemma {:induction false} ParseJoinedNames(names: seq<string>)
    requires |names| >= 1
    requires forall i :: 0 <= i < |names| ==> names[i] != [] && names[i] != "0"
    requires forall i :: 0 <= i < |names| ==> IsTrimmed(names[i]) && '\n' !in names[i]
    ensures ParseFileList(Join(names, '\n')) == names
  {
    var content := Join(names, '\n');
    JoinedNamesContent(names);
    TrimOfTrimmed(content);
    SplitJoin(names, '\n');
    TrimAllOfTrimmed(names);
    KeepsNonFalsy(names);
    assert ParseFileList(content) == DropFalsy(TrimAll(Split(Trim(content), '\n')));
  }

  /** The joined names are neither empty content nor in need of trimming. */
  lemma JoinedNamesContent(names: seq<string>)
    requires |names| >= 1
    requires forall i :: 0 <= i < |names| ==> names[i] != [] && names[i] != "0"
    requires forall i :: 0 <= i < |names| ==> IsTrimmed(names[i])
    ensures !IsEmpty(Join(names, '\n')) && IsTrimmed(Join(names, '\n'))
  {
    var content := Join(names, '\n');
    var first := names[0];
    var last := names[|names| - 1];
    JoinShape(names, '\n');
    NotFalsy(content, first);
    TrimmedByEnds(content, first, last);
  }

  /** What a join of non-empty pieces looks like from outside. */
  lemma JoinShape(parts: seq<string>, sep: char)
    requires |parts| >= 1
    requires forall i :: 0 <= i < |parts| ==> parts[i] != []
    ensures var s := Join(parts, sep);
      && (|s| >= 2 || s == parts[0])
      && s != []
      && s[0] == parts[0][0]
      && s[|s| - 1] == parts[|parts| - 1][|parts[|parts| - 1]| - 1]
  {
    JoinEnds(parts, sep);
  }

  lemma NotFalsy(s: string, piece: string)
    requires |s| >= 2 || (s == piece && piece != [] && piece != "0")
    ensures !IsEmpty(s)
  {
  }

  lemma TrimmedByEnds(s: string, first: string, last: string)
    requires s != [] && first != [] && last != [] && IsTrimmed(first) && IsTrimmed(last)
    requires s[0] == first[0] && s[|s| - 1] == last[|last| - 1]
    ensures IsTrimmed(s)
  {
  }

  lemma TrimAllOfTrimmed(names: seq<string>)
    requires forall i :: 0 <= i < |names| ==> IsTrimmed(names[i])
    ensures TrimAll(names) == names
  {
    forall i | 0 <= i < |names|
      ensures TrimAll(names)[i] == names[i]
    {
      TrimOfTrimmed(names[i]);
    }
  }

  /** A joined list of non-empty pieces starts with the first piece's first character
      and ends with the last piece's last character, and is at least as long as the
      number of separators plus one. */
  lemma {:induction false} JoinEnds(parts: seq<string>, sep: char)
    requires |parts| >= 1
    requires forall i :: 0 <= i < |parts| ==> parts[i] != []
    ensures var s := Join(parts, sep);
      && |s| >= 2 * |parts| - 1
      && s[0] == parts[0][0]
      && s[|s| - 1] == parts[|parts| - 1][|parts[|parts| - 1]| - 1]
  {
    if |parts| > 1 {
      JoinEnds(parts[1..], sep);
      var rest := Join(parts[1..], sep);
      assert Join(parts, sep) == parts[0] + [sep] + rest;
    }
  }

  /** Every download is attempted at most three times, and at most 1 + 2 = 3 seconds are
      spent sleeping. */
  lemma DefaultRetryBudget(url: string, answers: Answers)
    ensures FetchUrl(url, answers, 3).attempts <= 3
    ensures |FetchUrl(url, answers, 3).sleeps| <= 2
    ensures forall i :: 0 <= i < |FetchUrl(url, answers, 3).sleeps| ==>
      FetchUrl(url, answers, 3).sleeps[i] == [1, 2][i]
  {
    var f := FetchUrl(url, answers, 3);
    assert Pow2(0) == 1 && Pow2(1) == 2;
  }
}
