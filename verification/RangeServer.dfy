/** `demo/geoparquet/serve.py`: single byte ranges in the sense of section 14.1.2
    of RFC 9110, resolved in `send_head` and copied out in chunks by `copyfile`. */
module RangeServer {
  import opened Prelude
  import opened Bytes
  import opened Decimal

  /** The two groups of the range pattern. */
  datatype RangeSpec = RangeSpec(first: string, last: string) {
    predicate Valid() { AllDigits(first) && AllDigits(last) }
  }

  const UNIT := "bytes="

  /** `bytes=(\d*)-(\d*)$`, and at least one of the groups not empty. */
  function MatchRange(spec: string): (r: Option<RangeSpec>)
    ensures r.Some? ==> r.value.Valid()
  {
    if !(UNIT <= spec) then None
    else
      var rest := spec[|UNIT|..];
      var k := DigitRun(rest);
      if k == |rest| || rest[k] != '-' then None
      else
        var tail := rest[k + 1..];
        if DigitRun(tail) != |tail| || (k == 0 && tail == "") then None
        else
          assert tail[..|tail|] == tail;
          Some(RangeSpec(rest[..k], tail))
  }

  /** How the server reads a header with digits before the first dash. */
  lemma MatchParts(a: string, b: string)
    requires AllDigits(a)
    ensures MatchRange(UNIT + (a + ("-" + b))) ==
            if AllDigits(b) && (a != "" || b != "") then Some(RangeSpec(a, b)) else None
  {
    hide DigitRun, AllDigits;
    var rest := a + ("-" + b);
    assert (UNIT + rest)[|UNIT|..] == rest;
    DigitRunOf(a, "-" + b);
    DigitRunAll(b);
    assert rest[|a|] == '-' && rest[..|a|] == a && rest[|a| + 1..] == b;
  }

  /** Which headers are ranges to the server, and what it takes them to say. */
  lemma MatchRangeIff(spec: string, r: RangeSpec)
    ensures MatchRange(spec) == Some(r) <==>
            r.Valid() && (r.first != "" || r.last != "") && spec == "bytes=" + r.first + "-" + r.last
  {
    hide MatchRange, AllDigits;
    if MatchRange(spec) == Some(r) { MatchedRange(spec, r); }
    if r.Valid() && (r.first != "" || r.last != "") && spec == "bytes=" + r.first + "-" + r.last {
      MatchParts(r.first, r.last);
      HeaderGrouped(r.first, r.last);
    }
  }

  lemma HeaderGrouped(a: string, b: string)
    ensures "bytes=" + a + "-" + b == UNIT + (a + ("-" + b))
  {
  }

  lemma MatchedRange(spec: string, r: RangeSpec)
    requires MatchRange(spec) == Some(r)
    ensures r.Valid() && (r.first != "" || r.last != "") && spec == "bytes=" + r.first + "-" + r.last
  {
    hide DigitRun, AllDigits;
    var rest := spec[|UNIT|..];
    var k := DigitRun(rest);
    assert spec == UNIT + rest;
    assert rest == rest[..k] + "-" + rest[k + 1..];
  }

  datatype Resolved = Unsatisfiable | Span(first: nat, last: nat)

  /** First and last position of the range in a file of `size` bytes. */
  function Resolve(r: RangeSpec, size: nat): Resolved
    requires r.Valid()
  {
    var length := if r.first == "" then Min(Value(r.last), size) else 0;
    var first: int := if r.first == "" then size - length else Value(r.first);
    var last: int :=
      if r.first == "" then size - 1
      else Min(if r.last != "" then Value(r.last) else size - 1, size - 1);
    if first >= size || first > last then Unsatisfiable else Span(first, last)
  }

  /** The positions a range names: a suffix of the given length, or everything
      from the first position to the last one given or to the end. */
  ghost predicate Names(r: RangeSpec, size: nat, i: nat)
    requires r.Valid()
  {
    && i < size
    && if r.first == "" then i >= size - Value(r.last)
       else Value(r.first) <= i && (r.last != "" ==> i <= Value(r.last))
  }

  /** The answer covers exactly the positions named, and the range is refused
      exactly when it names none. */
  lemma ResolveCovers(r: RangeSpec, size: nat)
    requires r.Valid()
    ensures Resolve(r, size).Span? ==>
              forall i: nat :: Names(r, size, i) <==> Resolve(r, size).first <= i <= Resolve(r, size).last
    ensures Resolve(r, size).Unsatisfiable? <==> forall i: nat :: !Names(r, size, i)
  {
    var a := Resolve(r, size);
    if a.Span? {
      assert Names(r, size, a.first);
    }
  }

  /** An open file. Each read may return fewer bytes than asked for: `limit` says
      how many at most on the k-th read, and stands for any chunking at all. */
  class Source {
    const data: seq<Byte>
    const limit: nat -> nat
    var pos: nat
    var readCount: nat

    constructor (data: seq<Byte>, limit: nat -> nat)
      ensures this.data == data && pos == 0
    {
      this.data := data;
      this.limit := limit;
      pos := 0;
      readCount := 0;
    }

    /** At most `n` bytes, and none only at the end of the file. */
    method Read(n: nat) returns (chunk: seq<Byte>)
      requires n > 0 && pos <= |data|
      modifies this
      ensures old(pos) <= pos <= |data| && chunk == data[old(pos)..pos] && |chunk| <= n
      ensures chunk == [] <==> old(pos) == |data|
    {
      var k := Min(Min(n, limit(readCount) + 1), |data| - pos);
      chunk := data[pos..pos + k];
      pos := pos + k;
      readCount := readCount + 1;
    }
  }

  /** What the standard library's own `send_head` comes to: a page whose whole
      length it announces and that is then copied out, or an answer that it has
      sent itself, such as a redirect or an error. */
  datatype Stock = Page(body: seq<Byte>) | Finished(status: nat)

  /** What a request path stands for: a file, a file that cannot be opened, or a
      directory or nothing, which is left to the standard library. */
  datatype Target = File(data: seq<Byte>) | Unreadable | Other(stock: Stock)

  datatype Head =
    | Whole(length: nat)                          // 200
    | Ended(status: nat)                          // nothing left to copy
    | NotSatisfiable(size: nat)                   // 416
    | Partial(contentRange: string, length: nat)  // 206

  function ContentRange(first: nat, last: nat, size: nat): string {
    "bytes " + Show(first) + "-" + Show(last) + "/" + Show(size)
  }

  ghost predicate StockHead(target: Target, head: Head, f: Source?) {
    match target
    case File(data) => head == Whole(|data|) && f != null && f.data == data
    case Unreadable => head == Ended(404) && f == null
    case Other(Page(body)) => head == Whole(|body|) && f != null && f.data == body
    case Other(Finished(status)) => head == Ended(status) && f == null
  }

  /** What was written, or that the copying failed before writing anything. */
  datatype Copied = Written(output: seq<Byte>) | Raised

  /** One handler serves all requests of a connection, so its fields survive from
      one request to the next; `rangeRemaining` does not exist before the first
      partial answer. */
  class RangeRequestHandler {
    var range: Option<RangeSpec>
    var rangeRemaining: Option<nat>

    constructor ()
      ensures range == None && rangeRemaining == None
    {
      range, rangeRemaining := None, None;
    }

    /** The standard library's `send_head`, called with `self.range` as it is. */
    method StockSendHead(target: Target, limit: nat -> nat) returns (head: Head, f: Source?)
      ensures f != null ==> fresh(f) && f.pos == 0
      ensures StockHead(target, head, f)
    {
      match target
      case File(data) =>
        f := new Source(data, limit);
        head := Whole(|data|);
      case Unreadable =>
        head, f := Ended(404), null;
      case Other(Page(body)) =>
        f := new Source(body, limit);
        head := Whole(|body|);
      case Other(Finished(status)) =>
        head, f := Ended(status), null;
    }

    /** `send_head`, given the stripped Range header: what was announced, and the
        file to copy from, if any. */
    method SendHead(spec: Option<string>, target: Target, limit: nat -> nat) returns (head: Head, f: Source?)
      modifies this
      ensures range == Wanted(spec)
      ensures f != null ==> fresh(f)
      ensures range == None || target.Other? ==>
                && rangeRemaining == old(rangeRemaining) && (f != null ==> f.pos == 0)
                && StockHead(target, head, f)
      ensures range.Some? && target.Unreadable? ==>
                head == Ended(404) && f == null && rangeRemaining == old(rangeRemaining)
      ensures range.Some? && target.File? ==>
                match Resolve(range.value, |target.data|)
                case Unsatisfiable =>
                  head == NotSatisfiable(|target.data|) && f == null && rangeRemaining == old(rangeRemaining)
                case Span(first, last) =>
                  && head == Partial(ContentRange(first, last, |target.data|), last - first + 1)
                  && rangeRemaining == Some(last - first + 1)
                  && f != null && f.data == target.data && f.pos == first
    {
      hide StockHead, MatchRange, ContentRange, AllDigits;
      range := None;
      if spec.Some? {
        range := MatchRange(spec.value);
      }
      if range == None || target.Other? {
        head, f := StockSendHead(target, limit);
        return;
      }
      if target.Unreadable? {
        return Ended(404), null;
      }
      f := new Source(target.data, limit);
      var size := |target.data|;
      var firstS, lastS := range.value.first, range.value.last;
      var first, last: int;
      if firstS == "" {
        var length := Min(Value(lastS), size);
        first, last := size - length, size - 1;
      } else {
        first := Value(firstS);
        last := if lastS != "" then Value(lastS) else size - 1;
        last := Min(last, size - 1);
      }
      if first >= size || first > last {
        return NotSatisfiable(size), null;
      }
      head := Partial(ContentRange(first, last, size), last - first + 1);
      f.pos := first;
      rangeRemaining := Some(last - first + 1);
    }

    /** `copyfile`: what is written out, in chunks of at most 65536 bytes. It looks
        only at whether a range was asked for, not at how it was answered. */
    method CopyFile(source: Source) returns (r: Copied)
      requires source.pos <= |source.data|
      modifies source
      ensures range == None ==> r == Written(source.data[old(source.pos)..])
      ensures range.Some? ==>
                r == match rangeRemaining
                     case None => Raised
                     case Some(n) => Written(source.data[old(source.pos)..Min(old(source.pos) + n, |source.data|)])
    {
      if range == None {
        return Written(source.data[source.pos..]);
      }
      if rangeRemaining == None {
        return Raised;
      }
      ghost var start := source.pos;
      var output: seq<Byte> := [];
      var remaining := rangeRemaining.value;
      while remaining > 0
        invariant start <= source.pos <= |source.data|
        invariant output == source.data[start..source.pos]
        invariant remaining >= 0 && source.pos + remaining == start + rangeRemaining.value
        decreases remaining
      {
        var chunk := source.Read(Min(65536, remaining));
        if chunk == [] {
          break;
        }
        output := output + chunk;
        remaining := remaining - |chunk|;
      }
      return Written(output);
    }
  }

  /** The range a request asks for, if its header says one. */
  function Wanted(spec: Option<string>): Option<RangeSpec> {
    if spec.Some? then MatchRange(spec.value) else None
  }

  /** Status, Content-Range and Content-Length headers and body, as the client sees
      them; a 416 has no Content-Length, and what the standard library sends by
      itself is not looked into. */
  datatype Response = Response(status: nat, contentRange: string, contentLength: Option<nat>, body: seq<Byte>)

  /** What the server answers for a file, whatever the chunking. */
  function Answer(spec: string, data: seq<Byte>): Response {
    var r := MatchRange(spec);
    if r == None then Response(200, "", Some(|data|), data)
    else
      match Resolve(r.value, |data|)
      case Unsatisfiable => Response(416, "bytes */" + Show(|data|), None, [])
      case Span(first, last) =>
        Response(206, ContentRange(first, last, |data|), Some(last - first + 1), data[first..last + 1])
  }

  /** What it answers for any path, when the last partial answer on the connection
      left `stale` behind. */
  function AnswerTo(spec: Option<string>, target: Target, stale: Option<nat>): Response {
    match target
    case File(data) => if spec.Some? then Answer(spec.value, data) else Response(200, "", Some(|data|), data)
    case Unreadable => Response(404, "", None, [])
    case Other(Finished(status)) => Response(status, "", None, [])
    case Other(Page(page)) =>
      Response(200, "", Some(|page|), if Wanted(spec) == None then page else page[..Min(OrZero(stale), |page|)])
  }

  function OrZero(n: Option<nat>): nat {
    if n.Some? then n.value else 0
  }

  /** What the request leaves behind in turn. */
  function Leaves(spec: Option<string>, target: Target, stale: Option<nat>): Option<nat> {
    var r := AnswerTo(spec, target, stale);
    if r.status == 206 && target.File? then r.contentLength else stale
  }

  lemma SpanInFile(r: RangeSpec, size: nat)
    requires r.Valid() && Resolve(r, size).Span?
    ensures Resolve(r, size).first <= Resolve(r, size).last < size
  {
  }

  /** Exactly the positions from `first` to `last` are named. */
  ghost predicate NamesFromTo(r: RangeSpec, size: nat, first: nat, last: nat)
    requires r.Valid()
  {
    first <= last && forall i: nat :: Names(r, size, i) <==> first <= i <= last
  }

  /** The answer to a range of a file: what is named is announced and sent. */
  lemma NamedIsSent(spec: string, r: RangeSpec, data: seq<Byte>, a: nat, b: nat)
    requires r.Valid() && (r.first != "" || r.last != "") && spec == "bytes=" + r.first + "-" + r.last
    requires NamesFromTo(r, |data|, a, b)
    ensures b < |data|
    ensures Answer(spec, data) == Response(206, "bytes " + Show(a) + "-" + Show(b) + "/" + Show(|data|),
                                           Some(b - a + 1), data[a..b + 1])
  {
    hide MatchRange, Resolve, Show, Names;
    MatchRangeIff(spec, r);
    SpanNamed(r, |data|, a, b);
  }

  lemma SpanNamed(r: RangeSpec, size: nat, a: nat, b: nat)
    requires r.Valid() && NamesFromTo(r, size, a, b)
    ensures b < size && Resolve(r, size) == Span(a, b)
  {
    ResolveCovers(r, size);
    assert Names(r, size, a) && Names(r, size, b);
    hide Names, Resolve;
    var s := Resolve(r, size);
    assert s.first <= a <= s.last && s.first <= b <= s.last;
    SpanInFile(r, size);
    assert Names(r, size, s.first) && Names(r, size, s.last);
  }

  /** A range that names nothing is refused. */
  lemma NothingIsRefused(spec: string, r: RangeSpec, data: seq<Byte>)
    requires r.Valid() && (r.first != "" || r.last != "") && spec == "bytes=" + r.first + "-" + r.last
    requires forall i: nat :: !Names(r, |data|, i)
    ensures Answer(spec, data) == Response(416, "bytes */" + Show(|data|), None, [])
  {
    hide MatchRange, Resolve, Show, Names;
    MatchRangeIff(spec, r);
    ResolveCovers(r, |data|);
  }

  /** The answer for anything but a file, and what it leaves on the connection: only for
      a page does the range matter, and then in the wrong way. */
  lemma OtherTargets(spec: Option<string>, target: Target, stale: Option<nat>)
    requires !target.File?
    ensures Leaves(spec, target, stale) == stale
    ensures target.Unreadable? ==> AnswerTo(spec, target, stale) == Response(404, "", None, [])
    ensures target.Other? && target.stock.Finished? ==>
              AnswerTo(spec, target, stale) == Response(target.stock.status, "", None, [])
    ensures target.Other? && target.stock.Page? ==>
              var page := target.stock.body;
              var ranged, n := spec.Some? && MatchRange(spec.value).Some?, if stale.Some? then stale.value else 0;
              AnswerTo(spec, target, stale) ==
              Response(200, "", Some(|page|), if ranged && n < |page| then page[..n] else page)
  {
    hide MatchRange;
  }

  /** A file answered in part leaves the length of that part. */
  lemma FileLeaves(spec: Option<string>, data: seq<Byte>, stale: Option<nat>)
    ensures var r := AnswerTo(spec, File(data), stale);
            && r == (if spec.Some? then Answer(spec.value, data) else Response(200, "", Some(|data|), data))
            && Leaves(spec, File(data), stale) == if r.status == 206 then Some(|r.body|) else stale
  {
    if spec.Some? && MatchRange(spec.value).Some? && Resolve(MatchRange(spec.value).value, |data|).Span? {
      SpanInFile(MatchRange(spec.value).value, |data|);
    }
    hide MatchRange, Resolve;
  }

  /** Any other header is ignored. */
  lemma OtherHeader(spec: string, data: seq<Byte>)
    requires forall r: RangeSpec ::
               r.Valid() && (r.first != "" || r.last != "") ==> spec != "bytes=" + r.first + "-" + r.last
    ensures Answer(spec, data) == Response(200, "", Some(|data|), data)
  {
    if MatchRange(spec).Some? { MatchRangeIff(spec, MatchRange(spec).value); }
    hide MatchRange, Resolve;
  }

  /** One request served on a connection, whatever the chunking. */
  method Serve(handler: RangeRequestHandler, spec: Option<string>, target: Target, limit: nat -> nat)
    returns (r: Response)
    modifies handler
    ensures r == AnswerTo(spec, target, old(handler.rangeRemaining))
    ensures handler.rangeRemaining == Leaves(spec, target, old(handler.rangeRemaining))
  {
    hide MatchRange, AllDigits, ContentRange, Resolve;
    var head, f := handler.SendHead(spec, target, limit);
    if handler.range.Some? && target.File? && head.Partial? {
      SpanInFile(handler.range.value, |target.data|);
    }
    var body: seq<Byte> := [];
    if f != null {
      var copied := handler.CopyFile(f);
      if copied.Written? {
        body := copied.output;
      }
    }
    match head
    case Whole(length) =>
      return Response(200, "", Some(length), body);
    case Ended(status) =>
      return Response(status, "", None, body);
    case NotSatisfiable(size) =>
      return Response(416, "bytes */" + Show(size), None, body);
    case Partial(contentRange, length) =>
      return Response(206, contentRange, Some(length), body);
  }

  /** The answer announces a length and sends another. */
  predicate Misannounced(r: Response) {
    r.contentLength.Some? && |r.body| != r.contentLength.value
  }

  /** A range was asked for of a directory that answers with a page, and what the last
      partial answer on the connection left behind is less than the page. */
  predicate RangeOfPage(spec: Option<string>, target: Target, stale: Option<nat>) {
    Wanted(spec).Some? && target.Other? && target.stock.Page? && OrZero(stale) < |target.stock.body|
  }

  /** Exactly when the body is not as long as announced. In particular it always is
      for files, and for requests without a range. */
  lemma MisannouncedIff(spec: Option<string>, target: Target, stale: Option<nat>)
    ensures Misannounced(AnswerTo(spec, target, stale)) <==> RangeOfPage(spec, target, stale)
  {
    if target.File? && Wanted(spec).Some? && Resolve(Wanted(spec).value, |target.data|).Span? {
      SpanInFile(Wanted(spec).value, |target.data|);
    }
  }

  datatype Request = Request(spec: Option<string>, target: Target)

  /** What the requests of a connection have left behind. */
  function LeftBehind(requests: seq<Request>): Option<nat> {
    if requests == [] then None
    else
      var q := requests[|requests| - 1];
      Leaves(q.spec, q.target, LeftBehind(requests[..|requests| - 1]))
  }

  function AnswerAt(requests: seq<Request>, k: nat): Response
    requires k < |requests|
  {
    AnswerTo(requests[k].spec, requests[k].target, LeftBehind(requests[..k]))
  }

  /** The requests of one connection, served in turn by one handler. */
  method ServeConnection(requests: seq<Request>, limit: nat -> nat) returns (answers: seq<Response>)
    ensures |answers| == |requests| && forall k :: 0 <= k < |answers| ==> answers[k] == AnswerAt(requests, k)
  {
    hide AnswerTo, Leaves;
    var handler := new RangeRequestHandler();
    answers := [];
    for k := 0 to |requests|
      invariant |answers| == k && forall i :: 0 <= i < k ==> answers[i] == AnswerAt(requests, i)
      invariant handler.rangeRemaining == LeftBehind(requests[..k])
    {
      var r := Serve(handler, requests[k].spec, requests[k].target, limit);
      answers := answers + [r];
      assert requests[..k + 1][..k] == requests[..k];
    }
  }

  ghost predicate OnConnection(requests: seq<Request>, all: iset<Request>) {
    forall k :: 0 <= k < |requests| ==> requests[k] in all
  }

  /** Over all connections that send requests from a given set, every answer is as long
      as announced if and only if none of the requests asks for a range of a directory
      that answers with a page that is not empty. */
  lemma AlwaysAnnouncedIff(all: iset<Request>)
    ensures (forall requests: seq<Request>, k: nat ::
               k < |requests| && OnConnection(requests, all) ==> !Misannounced(AnswerAt(requests, k)))
            <==> forall q :: q in all ==> !RangeOfPage(q.spec, q.target, None)
  {
    hide Misannounced, RangeOfPage, AnswerTo;
    if q :| q in all && RangeOfPage(q.spec, q.target, None) {
      MisannouncedIff(q.spec, q.target, None);
      assert [q][..0] == [];
      assert OnConnection([q], all) && Misannounced(AnswerAt([q], 0));
    } else {
      forall requests: seq<Request>, k: nat | k < |requests| && OnConnection(requests, all)
        ensures !Misannounced(AnswerAt(requests, k))
      {
        var q, stale := requests[k], LeftBehind(requests[..k]);
        MisannouncedIff(q.spec, q.target, stale);
        LessIsWorse(q.spec, q.target, stale);
      }
    }
  }

  lemma LessIsWorse(spec: Option<string>, target: Target, stale: Option<nat>)
    ensures RangeOfPage(spec, target, stale) ==> RangeOfPage(spec, target, None)
  {
  }

  lemma TrailerRange()
    ensures MatchRange("bytes=-8") == Some(RangeSpec("", "8")) && Value("8") == 8
  {
    var rest := "bytes=-8"[|UNIT|..];
    assert UNIT <= "bytes=-8" && rest == "-8";
    DigitRunOf("", rest);
    assert "" + rest == rest;
    assert rest[1..] == "8";
    DigitRunOf("8", "");
    assert "8" + "" == "8";
    assert "8"[..0] == "";
  }

  /** Asked for the last 8 bytes of a directory, the server announces the whole page
      and sends nothing on a new connection, or as much as the last partial answer. */
  lemma TrailerOfDirectory(data: seq<Byte>, page: seq<Byte>)
    requires |data| >= 8 && |page| > 8
    ensures var ask, root := Request(Some("bytes=-8"), File(data)), Request(Some("bytes=-8"), Other(Page(page)));
            && AnswerAt([root], 0) == Response(200, "", Some(|page|), [])
            && AnswerAt([ask, root], 1) == Response(200, "", Some(|page|), page[..8])
  {
    TrailerRange();
    var ask, root := Request(Some("bytes=-8"), File(data)), Request(Some("bytes=-8"), Other(Page(page)));
    assert [root][..0] == [];
    assert [ask, root][..1] == [ask] && [ask][..0] == [];
    hide MatchRange;
    assert Resolve(RangeSpec("", "8"), |data|) == Span(|data| - 8, |data| - 1);
    assert LeftBehind([ask]) == Some(8);
  }
}
