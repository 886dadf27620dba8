/** The `CRATES=(...)` bash array: printed by `--emit-order`, read back by
    `parse_crates_array` with two regular expressions. */
module CratesArray {
  import opened Prelude

  const OPEN := "CRATES=("
  const CLOSE := "\n)"

  /** Start of the leftmost occurrence of `pat` in `s`. */
  function Find(s: string, pat: string): (r: Option<nat>)
    ensures r.Some? ==> r.value + |pat| <= |s|
  {
    if pat <= s then Some(0)
    else if s == "" then None
    else match Find(s[1..], pat)
      case None => None
      case Some(k) => Some(k + 1)
  }

  ghost predicate OccursAt(s: string, pat: string, i: nat) {
    i + |pat| <= |s| && s[i..i + |pat|] == pat
  }

  /** `Find` is the leftmost occurrence, and fails only when there is none. */
  lemma {:induction false} FindIsLeftmost(s: string, pat: string)
    ensures Find(s, pat).None? ==> forall i: nat :: !OccursAt(s, pat, i)
    ensures Find(s, pat).Some? ==> OccursAt(s, pat, Find(s, pat).value)
    ensures Find(s, pat).Some? ==> forall i: nat | i < Find(s, pat).value :: !OccursAt(s, pat, i)
  {
    hide OccursAt;
    OccursAtStart(s, pat);
    if pat <= s {
    } else if s == "" {
      forall i: nat ensures !OccursAt(s, pat, i) { OccursWithin(s, pat, i); }
    } else {
      FindIsLeftmost(s[1..], pat);
      forall i: nat ensures OccursAt(s, pat, i) <==> i > 0 && OccursAt(s[1..], pat, i - 1) {
        if i > 0 { OccursAtShift(s, pat, i); }
      }
      var next := Find(s[1..], pat);
      if next.Some? { assert OccursAt(s, pat, next.value + 1); }
    }
  }

  lemma OccursAtStart(s: string, pat: string)
    ensures OccursAt(s, pat, 0) <==> pat <= s
  {
    if |pat| <= |s| { assert s[0..0 + |pat|] == s[..|pat|]; }
  }

  lemma OccursWithin(s: string, pat: string, i: nat)
    ensures OccursAt(s, pat, i) ==> i + |pat| <= |s|
  {
  }

  lemma OccursAtShift(s: string, pat: string, i: nat)
    requires s != "" && i > 0
    ensures OccursAt(s, pat, i) <==> OccursAt(s[1..], pat, i - 1)
  {
    if i + |pat| <= |s| { SliceOfDrop(s, 1, i - 1, |pat|); }
  }

  lemma SliceOfDrop(s: string, d: nat, i: nat, n: nat)
    requires d + i + n <= |s|
    ensures s[d..][i..i + n] == s[d + i..d + i + n]
  {
    var tail := s[d..];
    var left, right := tail[i..i + n], s[d + i..d + i + n];
    assert |left| == |right|;
    forall k: nat | k < n ensures left[k] == right[k] {
      assert left[k] == tail[i + k];
    }
  }

  lemma FindUnique(s: string, pat: string, k: nat)
    requires OccursAt(s, pat, k) && forall i: nat | i < k :: !OccursAt(s, pat, i)
    ensures Find(s, pat) == Some(k)
  {
    FindIsLeftmost(s, pat);
  }

  /** `re.findall(r'"([^"]+)"', s)`: scan for a quote, take the longest run of
      one or more other characters, and require a closing quote; when that fails
      the scan resumes at the next character. */
  function Quoted(s: string): seq<string>
    decreases |s|
  {
    if s == "" then []
    else if s[0] != '"' then Quoted(s[1..])
    else match Find(s[1..], "\"")
      case None => Quoted(s[1..])
      case Some(k) =>
        if k == 0 then Quoted(s[1..])
        else [s[1..k + 1]] + Quoted(s[k + 2..])
  }

  /** `re.search(r"CRATES=\((.*?)\n\)", text, re.S)` and the findall on group 1. */
  function ParseCratesArray(text: string): seq<string> {
    match Find(text, OPEN)
    case None => []
    case Some(i) =>
      var rest := text[i + |OPEN|..];
      match Find(rest, CLOSE)
      case None => []
      case Some(j) => Quoted(rest[..j])
  }

  /** Looking only at the first opening is right: if no close follows the first
      one, none follows a later one, so the regular expression fails as well. */
  lemma FirstOpeningDecides(text: string, i: nat, i': nat, j: nat)
    requires Find(text, OPEN) == Some(i) && OccursAt(text, OPEN, i')
    requires i' + |OPEN| <= j && OccursAt(text, CLOSE, j)
    ensures Find(text[i + |OPEN|..], CLOSE).Some?
  {
    FindIsLeftmost(text, OPEN);
    var rest := text[i + |OPEN|..];
    FindIsLeftmost(rest, CLOSE);
    var k := j - (i + |OPEN|);
    SliceOfDrop(text, i + |OPEN|, k, |CLOSE|);
    assert OccursAt(rest, CLOSE, k);
  }

  /** The lines between the parentheses, as `--emit-order` prints them. */
  function Lines(names: seq<string>): string {
    if names == [] then ""
    else "    \"" + names[0] + "\"\n" + Lines(names[1..])
  }

  function Format(names: seq<string>): string {
    "CRATES=(\n" + Lines(names) + ")\n"
  }

  /** The same lines with each newline moved to the front. */
  function Body(names: seq<string>): string {
    if names == [] then ""
    else "\n    \"" + names[0] + "\"" + Body(names[1..])
  }

  lemma {:induction false} LinesAsBody(names: seq<string>)
    ensures "\n" + Lines(names) == Body(names) + "\n"
  {
    if names != [] {
      LinesAsBody(names[1..]);
      var n, l, b := names[0], Lines(names[1..]), Body(names[1..]);
      calc {
        "\n" + Lines(names);
        "\n" + ("    \"" + n + "\"\n" + l);
        { assert "\"\n" == "\"" + "\n"; }
        "\n    \"" + n + "\"" + ("\n" + l);
        "\n    \"" + n + "\"" + (b + "\n");
        Body(names) + "\n";
      }
    }
  }

  lemma FormatAsBody(names: seq<string>)
    ensures Format(names) == OPEN + Body(names) + CLOSE + "\n"
  {
    LinesAsBody(names);
    calc {
      Format(names);
      { assert "CRATES=(\n" == OPEN + "\n"; }
      OPEN + ("\n" + Lines(names)) + ")\n";
      OPEN + (Body(names) + "\n") + ")\n";
      { assert "\n" + ")\n" == CLOSE + "\n"; }
      OPEN + Body(names) + CLOSE + "\n";
    }
  }

  lemma FormatInContext(pre: string, names: seq<string>, post: string)
    ensures pre + Format(names) + post == pre + OPEN + (Body(names) + CLOSE + ("\n" + post))
  {
    FormatAsBody(names);
    hide Format, Body;
  }

  /** A name that survives: not empty, no quote, and no newline-parenthesis. */
  predicate Printable(n: string) {
    n != "" && '"' !in n && Find(n, CLOSE).None?
  }

  /** Every entry that can be read back from text without a close is printable. */
  lemma {:induction false} QuotedPrintable(s: string)
    requires forall i: nat :: !OccursAt(s, CLOSE, i)
    ensures forall n :: n in Quoted(s) ==> Printable(n)
    decreases |s|
  {
    if s != "" {
      DropHasNoClose(s, 1);
      QuotedPrintable(s[1..]);
      if s[0] == '"' {
        FindIsLeftmost(s[1..], "\"");
        match Find(s[1..], "\"")
        case None =>
        case Some(k) =>
          DropHasNoClose(s, k + 2);
          QuotedPrintable(s[k + 2..]);
          if k > 0 { EntryPrintable(s, k); }
      }
    }
  }

  lemma DropHasNoClose(s: string, d: nat)
    requires d <= |s| && forall i: nat :: !OccursAt(s, CLOSE, i)
    ensures forall i: nat :: !OccursAt(s[d..], CLOSE, i)
  {
    forall i: nat ensures !OccursAt(s[d..], CLOSE, i) {
      assert !OccursAt(s, CLOSE, d + i);
      if i + 2 <= |s[d..]| { SliceOfDrop(s, d, i, 2); }
    }
  }

  lemma EntryPrintable(s: string, k: nat)
    requires s != "" && k > 0 && Find(s[1..], "\"") == Some(k)
    requires forall i: nat :: !OccursAt(s, CLOSE, i)
    ensures Printable(s[1..k + 1])
  {
    var n := s[1..k + 1];
    FindIsLeftmost(s[1..], "\"");
    forall i | 0 <= i < |n| ensures n[i] != '"' {
      assert !OccursAt(s[1..], "\"", i);
      assert s[1..][i..i + 1] == [n[i]];
    }
    FindIsLeftmost(n, CLOSE);
    forall i: nat ensures !OccursAt(n, CLOSE, i) {
      assert !OccursAt(s, CLOSE, 1 + i);
      if i + 2 <= |n| {
        assert n[i..i + 2] == [n[i], n[i + 1]];
        assert s[1 + i..1 + i + 2] == [s[1 + i], s[1 + i + 1]];
      }
    }
  }

  /** Within the printed lines of printable names the array is not closed early. */
  lemma {:induction false} BodyHasNoClose(names: seq<string>, i: nat)
    requires forall n :: n in names ==> Printable(n)
    requires i + 1 < |Body(names)|
    ensures !(Body(names)[i] == '\n' && Body(names)[i + 1] == ')')
  {
    if names != [] {
      var n, rest := names[0], Body(names[1..]);
      var lead := "\n    \"";
      var head := lead + n + "\"";
      assert n in names && |lead| == 6;
      assert Body(names) == head + rest;
      if i >= |head| {
        BodyHasNoClose(names[1..], i - |head|);
      } else if i + 1 == |head| {
        assert head[i] == '"';
      } else if 6 <= i && i + 1 < 6 + |n| {
        FindIsLeftmost(n, CLOSE);
        assert !OccursAt(n, CLOSE, i - 6);
        assert n[i - 6..i - 6 + 2] == [n[i - 6], n[i - 5]];
        assert head[i] == n[i - 6] && head[i + 1] == n[i - 5];
      } else if i + 1 == 6 + |n| {
        assert head[i + 1] == '"';
      } else if i == 5 {
        assert head[i] == lead[5] == '"';
      } else {
        assert head[i + 1] == lead[i + 1];
      }
    }
  }

  /** What may stand between an earlier opening and the printed lines ends in the
      printed opening. */
  predicate EndsOpen(a: string) {
    a == "" || a[|a| - 1] == '('
  }

  /** The first close after the printed lines is the one that was printed. */
  lemma CloseFound(a: string, names: seq<string>, post: string)
    requires forall n :: n in names ==> Printable(n)
    requires EndsOpen(a) && Find(a, CLOSE) == None
    ensures Find(a + (Body(names) + CLOSE + post), CLOSE) == Some(|a| + |Body(names)|)
  {
    hide Find, Body, Printable;
    var b := Body(names);
    var s := a + (b + CLOSE + post);
    var end := |a| + |b|;
    assert s[end..end + 2] == CLOSE;
    FindIsLeftmost(a, CLOSE);
    forall i: nat | i < end ensures !OccursAt(s, CLOSE, i) {
      assert s[i..i + 2] == [s[i], s[i + 1]];
      if i + 1 < |a| {
        assert !OccursAt(a, CLOSE, i);
        assert a[i..i + 2] == [a[i], a[i + 1]];
      } else if |a| <= i && i - |a| + 1 < |b| {
        BodyHasNoClose(names, i - |a|);
        assert s[i] == b[i - |a|] && s[i + 1] == b[i - |a| + 1];
      }
    }
    FindUnique(s, CLOSE, end);
  }

  lemma {:induction false} QuotedSkip(a: string, s: string)
    requires '"' !in a
    ensures Quoted(a + s) == Quoted(s)
  {
    if a == "" {
      assert a + s == s;
    } else {
      QuotedSkip(a[1..], s);
      assert (a + s)[1..] == a[1..] + s;
    }
  }

  /** The quote after a text without quotes is the first one. */
  lemma QuoteFound(n: string, s: string)
    requires '"' !in n
    ensures Find(n + "\"" + s, "\"") == Some(|n|)
  {
    var t := n + "\"" + s;
    assert t[|n|..|n| + 1] == "\"";
    forall i: nat | i < |n| ensures !OccursAt(t, "\"", i) {
      assert t[i..i + 1] == [n[i]];
    }
    FindUnique(t, "\"", |n|);
  }

  lemma QuotedTake(n: string, s: string)
    requires n != "" && '"' !in n
    ensures Quoted("\"" + n + "\"" + s) == [n] + Quoted(s)
  {
    hide Quoted;
    var t := "\"" + n + "\"" + s;
    QuoteFound(n, s);
    assert t[0] == '"' && t[1..] == n + "\"" + s;
    assert t[1..|n| + 1] == n && t[|n| + 2..] == s;
    QuotedEntry(t, |n|);
  }

  lemma QuotedEntry(t: string, k: nat)
    requires t != "" && t[0] == '"' && k > 0 && Find(t[1..], "\"") == Some(k)
    ensures Quoted(t) == [t[1..k + 1]] + Quoted(t[k + 2..])
  {
    hide Find;
  }

  /** An empty pair of quotes opens at its second quote, and an open quote ends nothing. */
  lemma QuotedElse(n: string, s: string)
    requires '"' !in n
    ensures Quoted("\"\"" + s) == Quoted("\"" + s)
    ensures Quoted(n) == Quoted("\"" + n) == []
  {
    var t := "\"\"" + s;
    assert t[1..] == "\"" + s;
    QuoteFound("", s);
    assert "" + "\"" + s == "\"" + s;
    QuotedSkip(n, "");
    assert n + "" == n;
    NoQuote(n);
    assert ("\"" + n)[1..] == n;
  }

  lemma NoQuote(n: string)
    requires '"' !in n
    ensures Find(n, "\"") == None
  {
    FindIsLeftmost(n, "\"");
    if Find(n, "\"").Some? {
      QuoteAt(n, Find(n, "\"").value);
      assert false;
    }
  }

  lemma QuoteAt(n: string, k: nat)
    requires OccursAt(n, "\"", k)
    ensures '"' in n
  {
    assert n[k..k + 1][0] == n[k];
  }

  /** A little script, and how a list is printed. */
  lemma SampleArray()
    ensures ParseCratesArray("CRATES=(\"a\"\n)\n") == ["a"]
    ensures Format(["a", "b"]) == "CRATES=(\n    \"a\"\n    \"b\"\n)\n"
  {
    SampleFormat();
    var inner, rest := "\"a\"", "\"a\"\n)\n";
    var text := "CRATES=(\"a\"\n)\n";
    assert OPEN <= text && text[0 + |OPEN|..] == rest;
    CloseAfter(inner);
    assert inner + CLOSE + "\n" == rest && rest[..|inner|] == inner;
    QuotedTake("a", "");
    assert "\"" + "a" + "\"" + "" == inner && Quoted("") == [];
    hide Find, Quoted, Format;
  }

  lemma SampleFormat()
    ensures Format(["a", "b"]) == "CRATES=(\n    \"a\"\n    \"b\"\n)\n"
  {
    assert ["a", "b"][1..] == ["b"] && ["b"][1..] == [];
  }

  lemma CloseAfter(inner: string)
    requires '\n' !in inner
    ensures Find(inner + CLOSE + "\n", CLOSE) == Some(|inner|)
  {
    var s := inner + CLOSE + "\n";
    assert s[|inner|..|inner| + 2] == CLOSE;
    forall i: nat | i < |inner| ensures !OccursAt(s, CLOSE, i) {
      assert i + 2 <= |s| && s[i..i + 2][0] == inner[i];
    }
    FindUnique(s, CLOSE, |inner|);
  }

  lemma {:induction false} QuotedBody(names: seq<string>)
    requires forall n :: n in names ==> Printable(n)
    ensures Quoted(Body(names)) == names
  {
    if names != [] {
      hide Quoted, Body, Printable;
      var n, rest := names[0], names[1..];
      assert n in names;
      QuotedBody(rest);
      QuotedLine(n, Body(rest));
      BodyCons(names);
    }
  }

  lemma BodyCons(names: seq<string>)
    requires names != []
    ensures Body(names) == "\n    " + ("\"" + names[0] + "\"" + Body(names[1..]))
  {
    assert "\n    \"" == "\n    " + "\"";
  }

  lemma QuotedLine(n: string, rest: string)
    requires Printable(n)
    ensures Quoted("\n    " + ("\"" + n + "\"" + rest)) == [n] + Quoted(rest)
  {
    hide Quoted;
    QuotedTake(n, rest);
    QuotedSkip("\n    ", "\"" + n + "\"" + rest);
  }

  /** From the first opening of a text, the printed one included, to the printed lines. */
  function AfterOpening(pre: string): string {
    match Find(pre + OPEN, OPEN)
    case None => ""
    case Some(i) => (pre + OPEN)[i + |OPEN|..]
  }

  /** The search meets that opening, whatever follows. */
  lemma FirstOpening(pre: string, rest: string)
    ensures var i := Find(pre + OPEN, OPEN);
            && i.Some? && Find(pre + OPEN + rest, OPEN) == i
            && (pre + OPEN + rest)[i.value + |OPEN|..] == AfterOpening(pre) + rest
    ensures EndsOpen(AfterOpening(pre))
  {
    var t := pre + OPEN;
    FindIsLeftmost(t, OPEN);
    assert t[|pre|..|pre| + |OPEN|] == OPEN;
    assert OccursAt(t, OPEN, |pre|);
    hide Find;
    var i := Find(t, OPEN).value;
    assert i <= |pre| && t[|t| - 1] == OPEN[|OPEN| - 1] == '(';
    OpeningStays(t, i, rest);
  }

  lemma OpeningStays(t: string, i: nat, rest: string)
    requires Find(t, OPEN) == Some(i)
    ensures Find(t + rest, OPEN) == Some(i)
  {
    FindIsLeftmost(t, OPEN);
    hide Find;
    forall k: nat | k <= i ensures OccursAt(t + rest, OPEN, k) <==> OccursAt(t, OPEN, k) {
      assert (t + rest)[k..k + |OPEN|] == t[k..k + |OPEN|];
    }
    FindUnique(t + rest, OPEN, i);
  }

  /** No earlier opening of the text is closed, or followed by a quote, before the
      printed lines. */
  predicate Undisturbed(pre: string) {
    Find(AfterOpening(pre), CLOSE) == None && '"' !in AfterOpening(pre)
  }

  /** Reading back a printed array, after any text whose own openings do not
      interfere, gives the printed names exactly when every name is printable. */
  lemma RoundTrip(pre: string, names: seq<string>, post: string)
    requires Undisturbed(pre)
    ensures ParseCratesArray(pre + Format(names) + post) == names
            <==> forall n :: n in names ==> Printable(n)
  {
    ParseAfter(pre, names, post);
    hide Find, Quoted, Body, AfterOpening;
    BeforeClose(AfterOpening(pre), names, "\n" + post);
  }

  /** An array that is opened and closed earlier is read instead. */
  lemma EarlierArrayWins(pre: string, names: seq<string>, post: string)
    requires Find(AfterOpening(pre), CLOSE).Some?
    ensures ParseCratesArray(pre + Format(names) + post) ==
            Quoted(AfterOpening(pre)[..Find(AfterOpening(pre), CLOSE).value])
  {
    ParseAfter(pre, names, post);
    hide Find, Quoted, Body, AfterOpening;
    CloseStays(AfterOpening(pre), Body(names) + CLOSE + ("\n" + post));
  }

  /** An opening that is not closed before runs on into the printed lines. */
  lemma EarlierOpeningRunsOn(pre: string, names: seq<string>, post: string)
    requires Find(AfterOpening(pre), CLOSE) == None && forall n :: n in names ==> Printable(n)
    ensures ParseCratesArray(pre + Format(names) + post) == Quoted(AfterOpening(pre) + Body(names))
  {
    ParseAfter(pre, names, post);
    hide Find, Quoted, Body, AfterOpening;
    BeforeClose(AfterOpening(pre), names, "\n" + post);
  }

  lemma CloseStays(a: string, rest: string)
    requires Find(a, CLOSE).Some?
    ensures Find(a + rest, CLOSE) == Find(a, CLOSE)
    ensures (a + rest)[..Find(a, CLOSE).value] == a[..Find(a, CLOSE).value]
  {
    FindIsLeftmost(a, CLOSE);
    hide Find;
    var j := Find(a, CLOSE).value;
    forall k: nat | k <= j ensures OccursAt(a + rest, CLOSE, k) <==> OccursAt(a, CLOSE, k) {
      assert (a + rest)[k..k + |CLOSE|] == a[k..k + |CLOSE|];
    }
    FindUnique(a + rest, CLOSE, j);
  }

  /** What the parser makes of the text around a printed array. */
  lemma ParseAfter(pre: string, names: seq<string>, post: string)
    ensures EndsOpen(AfterOpening(pre))
    ensures var rest := AfterOpening(pre) + (Body(names) + CLOSE + ("\n" + post));
            Find(rest, CLOSE).Some? &&
            ParseCratesArray(pre + Format(names) + post) == Quoted(rest[..Find(rest, CLOSE).value])
  {
    hide Find, Quoted, Body, Format, AfterOpening;
    var lines := Body(names) + CLOSE + ("\n" + post);
    FormatInContext(pre, names, post);
    FirstOpening(pre, lines);
    CloseSomewhere(AfterOpening(pre) + Body(names), "\n" + post);
    var rest := AfterOpening(pre) + lines;
    assert AfterOpening(pre) + Body(names) + CLOSE + ("\n" + post) == rest;
    ParseFrom(pre + OPEN + lines, Find(pre + OPEN, OPEN).value, rest);
  }

  lemma ParseFrom(text: string, i: nat, rest: string)
    requires Find(text, OPEN) == Some(i) && text[i + |OPEN|..] == rest && Find(rest, CLOSE).Some?
    ensures ParseCratesArray(text) == Quoted(rest[..Find(rest, CLOSE).value])
  {
    hide Find, Quoted;
  }

  lemma CloseSomewhere(b: string, post: string)
    ensures Find(b + CLOSE + post, CLOSE).Some?
  {
    var rest := b + CLOSE + post;
    FindIsLeftmost(rest, CLOSE);
    assert rest[|b|..|b| + 2] == CLOSE;
    assert OccursAt(rest, CLOSE, |b|);
    hide OccursAt;
  }

  /** Whatever is read before the first close is printable. */
  lemma BeforeFirstClose(rest: string, j: nat)
    requires Find(rest, CLOSE) == Some(j)
    ensures forall n :: n in Quoted(rest[..j]) ==> Printable(n)
  {
    FindIsLeftmost(rest, CLOSE);
    hide Find, Quoted, Printable;
    forall i: nat ensures !OccursAt(rest[..j], CLOSE, i) {
      if i + 2 <= j {
        assert !OccursAt(rest, CLOSE, i);
        assert rest[..j][i..i + 2] == rest[i..i + 2];
      }
    }
    QuotedPrintable(rest[..j]);
  }

  lemma BeforeClose(a: string, names: seq<string>, post: string)
    requires EndsOpen(a) && Find(a, CLOSE) == None
    ensures var rest := a + (Body(names) + CLOSE + post);
            && Find(rest, CLOSE).Some?
            && ((forall n :: n in names ==> Printable(n)) ==>
                  Quoted(rest[..Find(rest, CLOSE).value]) == Quoted(a + Body(names)))
            && ('"' !in a ==>
                  (Quoted(rest[..Find(rest, CLOSE).value]) == names <==> forall n :: n in names ==> Printable(n)))
  {
    hide *;
    var b := Body(names);
    var rest := a + (b + CLOSE + post);
    CloseSomewhere(a + b, post);
    assert a + b + CLOSE + post == rest;
    var j := Find(rest, CLOSE).value;
    BeforeFirstClose(rest, j);
    if forall n :: n in names ==> Printable(n) {
      CloseFound(a, names, post);
      assert rest[..|a| + |b|] == a + b;
      if '"' !in a {
        QuotedSkip(a, b);
        QuotedBody(names);
      }
    }
  }
}
