/** `demo/geoparquet/main.js`: opening a remote Parquet file by fetching its 8-byte
    trailer and then its footer from the range server, with a footer cache. */
module FooterClient {
  import opened Prelude
  import opened Bytes
  import opened Decimal
  import opened RangeServer
  import opened TypedArray

  const MAGIC: seq<Byte> := [80, 65, 82, 49]   // PAR1

  /** The number in a JavaScript template literal. */
  function ShowInt(n: int): string {
    if n < 0 then "-" + Show(-n) else Show(n)
  }

  function RangeHeader(start: int, end: int): string {
    UNIT + ShowInt(start) + "-" + ShowInt(end)
  }

  /** `s.split('/').pop()` */
  function AfterLastSlash(s: string): string {
    if s == "" then ""
    else if '/' in s[1..] then AfterLastSlash(s[1..])
    else if s[0] == '/' then s[1..]
    else s
  }

  function Flatten(chunks: seq<seq<Byte>>): seq<Byte> {
    if chunks == [] then [] else chunks[0] + Flatten(chunks[1..])
  }

  lemma {:induction false} FlattenAppend(chunks: seq<seq<Byte>>, c: seq<Byte>)
    ensures Flatten(chunks + [c]) == Flatten(chunks) + c
  {
    if chunks == [] {
      assert Flatten([c]) == c + Flatten([]);
    } else {
      FlattenAppend(chunks[1..], c);
      assert (chunks + [c])[1..] == chunks[1..] + [c];
    }
  }

  lemma FlattenTake(chunks: seq<seq<Byte>>, i: nat)
    requires i < |chunks|
    ensures Flatten(chunks[..i + 1]) == Flatten(chunks[..i]) + chunks[i]
  {
    assert chunks[..i + 1] == chunks[..i] + [chunks[i]];
    FlattenAppend(chunks[..i], chunks[i]);
  }

  lemma {:induction false} FlattenFits(chunks: seq<seq<Byte>>, i: nat)
    requires i <= |chunks|
    ensures |Flatten(chunks[..i])| <= |Flatten(chunks)|
    decreases |chunks| - i
  {
    if i < |chunks| {
      FlattenTake(chunks, i);
      FlattenFits(chunks, i + 1);
    } else {
      assert chunks[..i] == chunks;
    }
  }

  /** `readWithProgress`: collect the chunks, then lay them out end to end. */
  method ReadWithProgress(arriving: seq<seq<Byte>>) returns (body: seq<Byte>)
    ensures body == Flatten(arriving)
  {
    var chunks: seq<seq<Byte>> := [];
    var received := 0;
    for i := 0 to |arriving|
      invariant chunks == arriving[..i] && received == |Flatten(chunks)|
    {
      chunks := chunks + [arriving[i]];
      received := received + |arriving[i]|;
      FlattenTake(arriving, i);
      assert chunks == arriving[..i + 1];
    }
    assert chunks == arriving;
    var out := new Byte[received];
    var off := 0;
    for i := 0 to |chunks|
      invariant off == |Flatten(chunks[..i])| <= received == out.Length
      invariant out[..off] == Flatten(chunks[..i])
    {
      FlattenTake(chunks, i);
      FlattenFits(chunks, i + 1);
      ghost var done := out[..off];
      Set(out, chunks[i], off);
      assert out[..off + |chunks[i]|] == done + chunks[i];
      off := off + |chunks[i]|;
    }
    assert chunks[..|chunks|] == chunks;
    return out[..];
  }

  // ------------------------------------------------------ what a footer is

  /** The footer of a file laid out as body, non-empty footer, its length, PAR1. */
  ghost predicate LaidOut(data: seq<Byte>, footer: seq<Byte>) {
    && 0 < |footer| < U32_LIMIT
    && exists body :: data == body + footer + PutU32(|footer|, true) + [80, 65, 82, 49]
  }

  predicate HasTrailer(data: seq<Byte>) {
    |data| >= 8 && data[|data| - 4..] == MAGIC
  }

  function FooterLength(data: seq<Byte>): nat
    requires HasTrailer(data)
  {
    U32(data[|data| - 8..|data| - 4], true)
  }

  function FooterOf(data: seq<Byte>): Option<seq<Byte>> {
    if HasTrailer(data) && 0 < FooterLength(data) <= |data| - 8
    then Some(data[|data| - 8 - FooterLength(data)..|data| - 8])
    else None
  }

  /** What a trailer is. */
  lemma TrailerOfLayout(data: seq<Byte>)
    ensures HasTrailer(data) <==> exists body, n: seq<Byte> :: |n| == 4 && data == body + n + [80, 65, 82, 49]
    ensures forall body, n: seq<Byte> :: |n| == 4 && data == body + n + [80, 65, 82, 49] ==>
              HasTrailer(data) && FooterLength(data) == U32(n, true)
  {
    hide U32;
    if HasTrailer(data) {
      var body, n := data[..|data| - 8], data[|data| - 8..|data| - 4];
      assert data == body + n + MAGIC;
    }
    forall body, n: seq<Byte> | |n| == 4 && data == body + n + [80, 65, 82, 49]
      ensures HasTrailer(data) && FooterLength(data) == U32(n, true)
    {
      assert data[|data| - 4..] == MAGIC && data[|data| - 8..|data| - 4] == n;
    }
  }

  /** `FooterOf` finds exactly the footers of properly laid out files. */
  lemma FooterOfLayout(data: seq<Byte>, footer: seq<Byte>)
    ensures FooterOf(data) == Some(footer) <==> LaidOut(data, footer)
  {
    if FooterOf(data) == Some(footer) { FooterFound(data, footer); }
    if LaidOut(data, footer) { LayoutFound(data, footer); }
  }

  lemma FooterFound(data: seq<Byte>, footer: seq<Byte>)
    requires FooterOf(data) == Some(footer)
    ensures LaidOut(data, footer)
  {
    var body := data[..|data| - 8 - |footer|];
    U32Inverse(data[|data| - 8..|data| - 4], true);
    hide PutU32, U32;
    assert data == body + footer + PutU32(|footer|, true) + MAGIC;
  }

  lemma LayoutFound(data: seq<Byte>, footer: seq<Byte>)
    requires LaidOut(data, footer)
    ensures FooterOf(data) == Some(footer)
  {
    U32RoundTrip(|footer|, true);
    hide PutU32, U32;
    var body :| data == body + footer + PutU32(|footer|, true) + MAGIC;
    LayoutSlices(data, body, footer, PutU32(|footer|, true));
  }

  lemma LayoutSlices(data: seq<Byte>, body: seq<Byte>, footer: seq<Byte>, len: seq<Byte>)
    requires |len| == 4 && data == body + footer + len + MAGIC
    ensures |data| == |body| + |footer| + 8 && data[|data| - 4..] == MAGIC && data[|data| - 8..|data| - 4] == len
    ensures data[|data| - 8 - |footer|..|data| - 8] == footer
  {
    var end := |body| + |footer|;
    assert data[end + 4..] == MAGIC;
    assert data[end..end + 4] == len;
    assert data[|body|..end] == footer;
  }

  // ----------------------------------------------------- talking to the server

  lemma TrailerAnswer(data: seq<Byte>)
    ensures var r := Answer("bytes=-8", data);
            && (r.status == 206 <==> data != [])
            && (data != [] ==>
                  && r.body == data[if |data| < 8 then 0 else |data| - 8..]
                  && r.contentRange == ContentRange(if |data| < 8 then 0 else |data| - 8, |data| - 1, |data|))
  {
    TrailerRange();
  }

  lemma {:induction false} AfterSlash(a: string, b: string)
    requires '/' !in b
    ensures AfterLastSlash(a + "/" + b) == b
  {
    var s := a + "/" + b;
    if a == "" {
      assert s == "/" + b;
      assert s[1..] == b;
    } else {
      assert s[1..] == a[1..] + "/" + b;
      assert (a[1..] + "/" + b)[|a| - 1] == '/';
      AfterSlash(a[1..], b);
    }
  }

  /** The client recovers the file size from the Content-Range header. */
  lemma TotalParsed(first: nat, last: nat, size: nat)
    ensures ParseInt(AfterLastSlash(ContentRange(first, last, size))) == Some(size)
  {
    AfterSlash("bytes " + Show(first) + "-" + Show(last), Show(size));
    ParseShown(size);
  }

  lemma HeaderShape(a: int, b: int)
    ensures RangeHeader(a, b) == "bytes=" + (ShowInt(a) + ("-" + ShowInt(b)))
  {
    hide ShowInt;
  }

  lemma PlainRange(a: nat, b: nat)
    ensures MatchRange(RangeHeader(a, b)) == Some(RangeSpec(Show(a), Show(b)))
  {
    HeaderShape(a, b);
    assert ShowInt(a) == Show(a) && ShowInt(b) == Show(b);
    MatchParts(Show(a), Show(b));
    hide *;
  }

  /** A negative start or end makes a header the server does not recognise. */
  lemma NegativeRange(a: int, b: int)
    requires a < 0 || b < 0
    ensures MatchRange(RangeHeader(a, b)) == None
  {
    hide MatchRange, RangeHeader, Show;
    HeaderShape(a, b);
    if a < 0 { NegativeStart(-a, ShowInt(b)); } else { NegativeEnd(a, -b); }
  }

  lemma NegativeStart(a: nat, b: string)
    ensures MatchRange(UNIT + (("-" + Show(a)) + ("-" + b))) == None
  {
    hide MatchRange, Show;
    var tail := Show(a) + ("-" + b);
    MatchParts("", tail);
    HasDash(Show(a), b);
    assert ("-" + Show(a)) + ("-" + b) == "" + ("-" + tail);
  }

  lemma NegativeEnd(a: nat, b: nat)
    ensures MatchRange(UNIT + (Show(a) + ("-" + ("-" + Show(b))))) == None
  {
    hide MatchRange, Show;
    MatchParts(Show(a), "-" + Show(b));
    HasDash("", Show(b));
    assert "" + ("-" + Show(b)) == "-" + Show(b);
  }

  lemma HasDash(a: string, b: string)
    ensures !AllDigits(a + ("-" + b))
  {
    assert (a + ("-" + b))[|a|] == '-';
  }

  lemma ResolvePlain(a: nat, b: nat, size: nat)
    ensures Resolve(RangeSpec(Show(a), Show(b)), size) ==
            if a >= size || a > Min(b, size - 1) then Unsatisfiable else Span(a, Min(b, size - 1))
  {
    ShowValue(a);
    ShowValue(b);
    hide Show, Value, AllDigits;
  }

  /** What a header with a start and an end gets. */
  lemma AnswerToHeader(a: int, b: int, data: seq<Byte>)
    ensures var r := Answer(RangeHeader(a, b), data);
            if a < 0 || b < 0 then r == Response(200, "", Some(|data|), data)
            else if a >= |data| || a > b then r == Response(416, "bytes */" + Show(|data|), None, [])
            else
              var e := if b < |data| then b else |data| - 1;
              r == Response(206, "bytes " + Show(a) + "-" + Show(e) + "/" + Show(|data|),
                            Some(e - a + 1), data[a..e + 1])
  {
    hide MatchRange, RangeHeader, Show, Resolve;
    if a < 0 || b < 0 {
      NegativeRange(a, b);
    } else {
      PlainRange(a, b);
      ResolvePlain(a, b, |data|);
    }
  }

  /** The footer request succeeds exactly when the announced length is positive
      and fits before the trailer, and then returns exactly those bytes. */
  lemma FooterAnswer(data: seq<Byte>)
    requires HasTrailer(data)
    ensures var n := FooterLength(data);
            var r := Answer(RangeHeader(|data| - 8 - n, |data| - 9), data);
            && (r.status == 206 <==> FooterOf(data).Some?)
            && (FooterOf(data).Some? ==> Some(r.body) == FooterOf(data))
  {
    AnswerToHeader(|data| - 8 - FooterLength(data), |data| - 9, data);
    hide Answer, RangeHeader, FooterLength;
  }

  // ------------------------------------------------------------------ the cache

  /** Validator headers of the trailer response; "" when a header is absent. */
  datatype Tags = Tags(etag: string, lastModified: string)

  datatype Entry = Entry(validator: string, bytes: seq<Byte>)

  function Validator(tags: Tags, total: nat): string {
    if tags.etag != "" then tags.etag
    else if tags.lastModified != "" then tags.lastModified
    else "len:" + Show(total)
  }

  /** `loadCachedFooter` drops an entry whose validator differs. */
  function Revalidate(cache: map<string, Entry>, url: string, validator: string): map<string, Entry> {
    if url in cache && cache[url].validator != validator then cache - {url} else cache
  }

  datatype Outcome = Opened(footer: seq<Byte>) | Failed

  function OpenOutcome(cache: map<string, Entry>, url: string, tags: Tags, data: seq<Byte>): Outcome {
    if !HasTrailer(data) then Failed
    else
      var kept := Revalidate(cache, url, Validator(tags, |data|));
      if url in kept && |kept[url].bytes| == FooterLength(data) then Opened(kept[url].bytes)
      else if FooterOf(data).Some? then Opened(FooterOf(data).value)
      else Failed
  }

  function OpenCache(cache: map<string, Entry>, url: string, tags: Tags, data: seq<Byte>): map<string, Entry> {
    if !HasTrailer(data) then cache
    else
      var validator := Validator(tags, |data|);
      var kept := Revalidate(cache, url, validator);
      if url in kept && |kept[url].bytes| == FooterLength(data) then kept
      else if FooterOf(data).Some? then kept[url := Entry(validator, FooterOf(data).value)]
      else kept
  }

  class Client {
    var cache: map<string, Entry>
    var dataset: Option<seq<Byte>>

    constructor ()
      ensures cache == map[] && dataset == None
    {
      cache, dataset := map[], None;
    }

    /** `openDataset` against the range server, for any chunking of the file reads
        (`limit`) and of the arriving body (`split`). */
    method OpenDataset(url: string, tags: Tags, handler: RangeRequestHandler, data: seq<Byte>,
                       limit: nat -> nat, split: seq<Byte> -> seq<seq<Byte>>)
      returns (r: Outcome)
      requires forall b :: Flatten(split(b)) == b
      modifies this, handler
      ensures r == OpenOutcome(old(cache), url, tags, data)
      ensures cache == OpenCache(old(cache), url, tags, data)
      ensures dataset == if r.Opened? then Some(r.footer) else old(dataset)
    {
      var trailer := FetchTrailer(handler, data, limit);
      if trailer == None {
        return Failed;
      }
      var total, footerLen := trailer.value.0, trailer.value.1;
      var validator := Validator(tags, total);
      cache := Revalidate(cache, url, validator);
      if url in cache && |cache[url].bytes| == footerLen {
        dataset := Some(cache[url].bytes);
        return Opened(cache[url].bytes);
      }
      var footer := FetchFooter(handler, total, footerLen, data, limit, split);
      if footer == None {
        return Failed;
      }
      cache := cache[url := Entry(validator, footer.value)];
      dataset := footer;
      return Opened(footer.value);
    }
  }

  /** Step 1: the file size and the footer length, or None without the trailer. */
  method FetchTrailer(handler: RangeRequestHandler, data: seq<Byte>, limit: nat -> nat) returns (r: Option<(nat, nat)>)
    modifies handler
    ensures r == if HasTrailer(data) then Some((|data|, FooterLength(data))) else None
  {
    var resp := Serve(handler, Some("bytes=-8"), File(data), limit);
    TrailerAnswer(data);
    hide Answer, MatchRange, Resolve, ContentRange, AfterLastSlash, ParseInt;
    if resp.status != 206 {
      return None;
    }
    TotalParsed(if |data| < 8 then 0 else |data| - 8, |data| - 1, |data|);
    var total := ParseInt(AfterLastSlash(resp.contentRange)).value;
    var trailer := resp.body;
    if |trailer| != 8 || trailer[4..] != MAGIC {
      assert |data| >= 8 ==> trailer[4..] == data[|data| - 4..];
      return None;
    }
    assert trailer[4..] == data[|data| - 4..];
    assert trailer[..4] == data[|data| - 8..|data| - 4];
    return Some((total, U32(trailer[..4], true)));
  }

  /** Step 2, cold: the footer bytes, refused unless there are as many as announced. */
  method FetchFooter(handler: RangeRequestHandler, total: nat, footerLen: nat, data: seq<Byte>,
                     limit: nat -> nat, split: seq<Byte> -> seq<seq<Byte>>)
    returns (r: Option<seq<Byte>>)
    requires forall b :: Flatten(split(b)) == b
    requires HasTrailer(data) && total == |data| && footerLen == FooterLength(data)
    modifies handler
    ensures r == FooterOf(data)
  {
    hide Answer, RangeHeader, FooterLength;
    var start := total - 8 - footerLen;
    FooterAnswer(data);
    var resp := Serve(handler, Some(RangeHeader(start, total - 9)), File(data), limit);
    if resp.status != 206 {
      return None;
    }
    var footer := ReadWithProgress(split(resp.body));
    if |footer| != footerLen {
      return None;
    }
    return Some(footer);
  }

  // -------------------------------------------------------------- what is opened

  /** With nothing cached for the url, opening succeeds exactly on a properly laid
      out file and hands over exactly its footer. */
  lemma ColdOpen(cache: map<string, Entry>, url: string, tags: Tags, data: seq<Byte>, footer: seq<Byte>)
    requires url !in cache
    ensures OpenOutcome(cache, url, tags, data) == Opened(footer) <==> LaidOut(data, footer)
    ensures OpenOutcome(cache, url, tags, data) == Failed <==> forall f :: !LaidOut(data, f)
  {
    FooterOfLayout(data, footer);
    if FooterOf(data).Some? {
      FooterOfLayout(data, FooterOf(data).value);
    }
    forall f ensures LaidOut(data, f) <==> FooterOf(data) == Some(f) {
      FooterOfLayout(data, f);
    }
  }

  /** One opening of a url at which the server holds `data`. */
  datatype Visit = Visit(url: string, tags: Tags, data: seq<Byte>)

  /** The cache after a run of visits that starts with an empty one. */
  function CacheAfter(visits: seq<Visit>): map<string, Entry> {
    if visits == [] then map[]
    else
      var v := visits[|visits| - 1];
      OpenCache(CacheAfter(visits[..|visits| - 1]), v.url, v.tags, v.data)
  }

  function OutcomeAt(visits: seq<Visit>, i: nat): Outcome
    requires i < |visits|
  {
    OpenOutcome(CacheAfter(visits[..i]), visits[i].url, visits[i].tags, visits[i].data)
  }

  function ValidatorOf(v: Visit): string {
    Validator(v.tags, |v.data|)
  }

  /** Visit `j` could have left this entry. */
  ghost predicate LeftBy(v: Visit, url: string, e: Entry) {
    v.url == url && ValidatorOf(v) == e.validator && FooterOf(v.data) == Some(e.bytes)
  }

  lemma {:induction false} EntriesComeFromVisits(visits: seq<Visit>, url: string)
    requires url in CacheAfter(visits)
    ensures exists j :: 0 <= j < |visits| && LeftBy(visits[j], url, CacheAfter(visits)[url])
  {
    var k := |visits| - 1;
    var v := visits[k];
    var before := CacheAfter(visits[..k]);
    var e := CacheAfter(visits)[url];
    if url in before && before[url] == e {
      EntriesComeFromVisits(visits[..k], url);
      var j :| 0 <= j < k && LeftBy(visits[..k][j], url, e);
      assert LeftBy(visits[j], url, e);
    } else {
      assert LeftBy(v, url, e);
    }
  }

  /** The footer that visit `u` leaves in the cache is taken at visit `v` for a
      footer of `v`, and is none. */
  ghost predicate Confuses(u: Visit, v: Visit) {
    && u.url == v.url && ValidatorOf(u) == ValidatorOf(v)
    && FooterOf(u.data).Some? && HasTrailer(v.data)
    && |FooterOf(u.data).value| == FooterLength(v.data)
    && FooterOf(u.data) != FooterOf(v.data)
  }

  /** Visit `i` of the run ends as it would without a cache. */
  ghost predicate TransparentAt(visits: seq<Visit>, i: nat)
    requires i < |visits|
  {
    OutcomeAt(visits, i) == OpenOutcome(map[], visits[i].url, visits[i].tags, visits[i].data)
  }

  ghost predicate DrawnFrom(visits: seq<Visit>, all: iset<Visit>) {
    forall i :: 0 <= i < |visits| ==> visits[i] in all
  }

  /** Exactly when the cache cannot be noticed: over all runs of visits from a given
      set, every opening ends as it would without a cache if and only if no visit of
      the set confuses another. */
  lemma TransparentIff(all: iset<Visit>)
    ensures (forall visits: seq<Visit>, i: nat :: i < |visits| && DrawnFrom(visits, all) ==> TransparentAt(visits, i))
            <==> forall u, v :: u in all && v in all ==> !Confuses(u, v)
  {
    if u, v :| u in all && v in all && Confuses(u, v) {
      ConfusionShows(u, v);
      assert DrawnFrom([u, v], all) && |[u, v]| == 2;
    } else {
      forall visits: seq<Visit>, i: nat | i < |visits| && DrawnFrom(visits, all) ensures TransparentAt(visits, i) {
        NoConfusionHides(visits, i);
      }
    }
  }

  lemma ConfusionShows(u: Visit, v: Visit)
    requires Confuses(u, v)
    ensures OutcomeAt([u, v], 1) == Opened(FooterOf(u.data).value) && !TransparentAt([u, v], 1)
  {
    hide FooterOf, HasTrailer, FooterLength, Validator;
    FooterLengthOf(u.data, FooterOf(u.data).value);
    assert [u, v][..1] == [u] && [u][..0] == [];
    assert CacheAfter([]) == map[];
    assert CacheAfter([u]) == map[u.url := Entry(ValidatorOf(u), FooterOf(u.data).value)];
  }

  lemma NoConfusionHides(visits: seq<Visit>, i: nat)
    requires i < |visits|
    requires forall j :: 0 <= j < i ==> !Confuses(visits[j], visits[i])
    ensures TransparentAt(visits, i)
  {
    var v := visits[i];
    var cache := CacheAfter(visits[..i]);
    if v.url in cache && cache[v.url].validator == ValidatorOf(v) {
      EntriesComeFromVisits(visits[..i], v.url);
      hide CacheAfter, FooterOf, HasTrailer, FooterLength, Validator;
      var j :| 0 <= j < i && LeftBy(visits[..i][j], v.url, cache[v.url]);
      assert !Confuses(visits[j], v);
    }
  }

  /** `s` decides whether the footer in the cache is still good: the ETag, else the
      modification date, else the length. */
  ghost predicate Decides(v: Visit, s: string) {
    if v.tags.etag != "" then s == v.tags.etag
    else if v.tags.lastModified != "" then s == v.tags.lastModified
    else s == "len:" + Show(|v.data|)
  }

  ghost predicate SameDecides(u: Visit, v: Visit) {
    exists s :: Decides(u, s) && Decides(v, s)
  }

  /** After a visit that left a footer, the next one to the same url takes it if and only
      if the footer lengths agree and the same string decides; else it fetches its own. */
  lemma SecondVisit(u: Visit, v: Visit, f: seq<Byte>, g: seq<Byte>)
    requires u.url == v.url && LaidOut(u.data, f) && LaidOut(v.data, g)
    ensures OutcomeAt([u, v], 1) == Opened(if |f| == |g| && SameDecides(u, v) then f else g)
  {
    hide FooterOf, HasTrailer, FooterLength, Validator, LaidOut, Decides;
    FooterOfLayout(u.data, f);
    FooterOfLayout(v.data, g);
    FooterLengthOf(u.data, f);
    FooterLengthOf(v.data, g);
    SameValidator(u, v);
    hide SameDecides;
    assert [u, v][..1] == [u] && [u][..0] == [];
    assert CacheAfter([]) == map[];
    assert CacheAfter([u]) == map[u.url := Entry(ValidatorOf(u), f)];
  }

  /** The same string decides for two ETags, for two dates without ETags, and for two
      lengths without either, if and only if they are equal. */
  lemma SameDecidesIff(u: Visit, v: Visit)
    ensures u.tags.etag != "" && v.tags.etag != "" ==> (SameDecides(u, v) <==> u.tags.etag == v.tags.etag)
    ensures u.tags.etag == v.tags.etag == "" && u.tags.lastModified != "" && v.tags.lastModified != "" ==>
              (SameDecides(u, v) <==> u.tags.lastModified == v.tags.lastModified)
    ensures u.tags == v.tags == Tags("", "") ==> (SameDecides(u, v) <==> |u.data| == |v.data|)
  {
    SameValidator(u, v);
    LengthShown(|u.data|, |v.data|);
    hide Show, SameDecides;
  }

  lemma LengthShown(a: nat, b: nat)
    ensures "len:" + Show(a) == "len:" + Show(b) <==> a == b
  {
    ShowValue(a);
    ShowValue(b);
    hide Show, Value;
    assert ("len:" + Show(a))[4..] == Show(a) && ("len:" + Show(b))[4..] == Show(b);
  }

  lemma SameValidator(u: Visit, v: Visit)
    ensures SameDecides(u, v) <==> ValidatorOf(u) == ValidatorOf(v)
  {
    DecidesIff(u);
    DecidesIff(v);
    hide Decides, ValidatorOf;
    if ValidatorOf(u) == ValidatorOf(v) { assert Decides(u, ValidatorOf(u)) && Decides(v, ValidatorOf(u)); }
  }

  lemma DecidesIff(v: Visit)
    ensures forall s :: Decides(v, s) <==> s == ValidatorOf(v)
  {
    hide Show;
  }

  /** Visit `j` is the last one to the url that found a trailer. */
  predicate LastTrailer(visits: seq<Visit>, url: string, j: nat) {
    && j < |visits| && visits[j].url == url && HasTrailer(visits[j].data)
    && forall k :: j < k < |visits| && visits[k].url == url ==> !HasTrailer(visits[k].data)
  }

  /** What is cached for a url belongs to the last visit that found a trailer there: its
      string decides, and if it opened a footer then that is what is cached. */
  lemma {:induction false} CacheFollowsLastVisit(visits: seq<Visit>, url: string, j: nat)
    requires LastTrailer(visits, url, j)
    ensures var cache, r := CacheAfter(visits), OutcomeAt(visits, j);
            && (url in cache ==> Decides(visits[j], cache[url].validator))
            && (r.Opened? ==> url in cache && cache[url].bytes == r.footer)
  {
    var k := |visits| - 1;
    DecidesIff(visits[j]);
    hide FooterOf, FooterLength, Validator, Decides;
    if j < k {
      assert visits[..k][..j] == visits[..j];
      CacheFollowsLastVisit(visits[..k], url, j);
    }
  }

  /** At each url, equal validators mean equal contents. */
  ghost predicate ValidatorsIdentify(visits: seq<Visit>) {
    forall i, j | 0 <= i < |visits| && 0 <= j < |visits| && visits[i].url == visits[j].url
                  && ValidatorOf(visits[i]) == ValidatorOf(visits[j]) :: visits[i].data == visits[j].data
  }

  /** So it is enough, for any one run, that validators tell contents apart. */
  lemma CacheIsTransparent(visits: seq<Visit>, i: nat)
    requires i < |visits| && ValidatorsIdentify(visits)
    ensures TransparentAt(visits, i)
  {
    hide FooterOf, HasTrailer, FooterLength, Validator, TransparentAt;
    forall j | 0 <= j < i ensures !Confuses(visits[j], visits[i]) {
      if visits[j].url == visits[i].url && ValidatorOf(visits[j]) == ValidatorOf(visits[i]) {
        assert visits[j].data == visits[i].data;
      }
    }
    NoConfusionHides(visits, i);
  }

  /** Two files that the validator `len:` cannot tell apart, with different footers. */
  ghost predicate Confusable(a: seq<Byte>, b: seq<Byte>, f: seq<Byte>, g: seq<Byte>) {
    LaidOut(a, f) && LaidOut(b, g) && |a| == |b| && |f| == |g| && f != g
  }

  /** The range server sends neither header, so its validator is the file's length:
      when a file is replaced by another of the same length and footer length, the
      second opening still hands over the first file's footer. */
  lemma SameLengthIsStale(url: string, a: seq<Byte>, b: seq<Byte>, f: seq<Byte>, g: seq<Byte>)
    requires Confusable(a, b, f, g)
    ensures OutcomeAt([Visit(url, Tags("", ""), a), Visit(url, Tags("", ""), b)], 1) == Opened(f)
    ensures OpenOutcome(map[], url, Tags("", ""), b) == Opened(g)
  {
    FooterOfLayout(a, f);
    FooterOfLayout(b, g);
    FooterLengthOf(a, f);
    FooterLengthOf(b, g);
    ConfusionShows(Visit(url, Tags("", ""), a), Visit(url, Tags("", ""), b));
    hide FooterOf, HasTrailer, FooterLength, LaidOut, OutcomeAt;
  }

  lemma FooterLengthOf(data: seq<Byte>, footer: seq<Byte>)
    requires FooterOf(data) == Some(footer)
    ensures HasTrailer(data) && FooterLength(data) == |footer|
  {
  }

  lemma OneByteFooter(x: Byte) returns (data: seq<Byte>)
    ensures LaidOut(data, [x]) && |data| == 9
  {
    data := [] + [x] + PutU32(1, true) + MAGIC;
  }

  lemma SuchFilesExist()
    ensures exists a, b, f, g :: Confusable(a, b, f, g)
  {
    var a := OneByteFooter(7);
    var b := OneByteFooter(8);
    hide LaidOut;
    var f: seq<Byte>, g: seq<Byte> := [7], [8];
    assert f[0] != g[0];
    assert Confusable(a, b, f, g);
  }
}
