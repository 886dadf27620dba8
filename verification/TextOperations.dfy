/** Operational transformation of text, `crates/oxigeo-sync/src/ot`: building and
    applying operations, transforming concurrent ones, composing and inverting them. */
module TextOperations {
  import opened Prelude
  import opened Bytes

  // ------------------------------------------------------------------- meaning

  /** A byte of a UTF-8 character other than its first. */
  predicate Continuation(b: Byte) {
    128 <= b < 192
  }

  /** UTF-8 text as its bytes; it starts with a whole character. */
  type Text = s: seq<Byte> | s == [] || !Continuation(s[0]) witness []

  /** Every character is a single byte. */
  predicate Plain(s: seq<Byte>) {
    forall b :: b in s ==> !Continuation(b)
  }

  datatype Operation = Retain(n: nat) | Insert(s: Text) | Delete(n: nat)

  /** What an operation does, one byte at a time. */
  datatype Step = Keep | Drop | Put(b: Byte)

  function Times(n: nat, s: Step): (r: seq<Step>)
    ensures |r| == n
  {
    if n == 0 then [] else [s] + Times(n - 1, s)
  }

  function Puts(s: seq<Byte>): (r: seq<Step>)
    ensures |r| == |s|
  {
    if s == [] then [] else [Put(s[0])] + Puts(s[1..])
  }

  function StepsOf(op: Operation): seq<Step> {
    match op
    case Retain(n) => Times(n, Keep)
    case Insert(s) => Puts(s)
    case Delete(n) => Times(n, Drop)
  }

  function Expand(ops: seq<Operation>): seq<Step> {
    if ops == [] then [] else StepsOf(ops[0]) + Expand(ops[1..])
  }

  /** How many bytes of the document a step takes up, and how many it leaves. */
  function Takes(s: Step): nat {
    if s.Put? then 0 else 1
  }

  function Leaves(s: Step): nat {
    if s.Drop? then 0 else 1
  }

  function Consumes(st: seq<Step>): nat {
    if st == [] then 0 else Takes(st[0]) + Consumes(st[1..])
  }

  function Produces(st: seq<Step>): nat {
    if st == [] then 0 else Leaves(st[0]) + Produces(st[1..])
  }

  function Made(s: Step, text: seq<Byte>): (r: seq<Byte>)
    requires Takes(s) <= |text|
    ensures |r| == Leaves(s)
  {
    match s
    case Keep => [text[0]]
    case Drop => []
    case Put(b) => [b]
  }

  /** What the steps make of a document of the length they take up. */
  function Perform(st: seq<Step>, text: seq<Byte>): (r: seq<Byte>)
    ensures Consumes(st) == |text| ==> |r| == Produces(st)
  {
    if st == [] || Takes(st[0]) > |text| then []
    else Made(st[0], text) + Perform(st[1..], text[Takes(st[0])..])
  }

  /** `apply`: lengths are counted in bytes but consumed in characters, so it
      succeeds on plain text only. */
  function Applied(st: seq<Step>, text: seq<Byte>): Option<seq<Byte>> {
    if |text| == Consumes(st) && Plain(text) then Some(Perform(st, text)) else None
  }

  // ------------------------------------------------------- steps of operations

  lemma {:induction false} TimesSplit(m: nat, n: nat, s: Step)
    ensures Times(m + n, s) == Times(m, s) + Times(n, s)
  {
    if m == 0 {
      assert [] + Times(n, s) == Times(n, s);
    } else {
      TimesSplit(m - 1, n, s);
      assert [s] + (Times(m - 1, s) + Times(n, s)) == [s] + Times(m - 1, s) + Times(n, s);
    }
  }

  lemma {:induction false} PutsSplit(a: seq<Byte>, b: seq<Byte>)
    ensures Puts(a + b) == Puts(a) + Puts(b)
  {
    if a == [] {
      assert a + b == b;
      assert [] + Puts(b) == Puts(b);
    } else {
      PutsSplit(a[1..], b);
      assert (a + b)[1..] == a[1..] + b;
      assert [Put(a[0])] + (Puts(a[1..]) + Puts(b)) == [Put(a[0])] + Puts(a[1..]) + Puts(b);
    }
  }

  lemma {:induction false} ExpandConcat(a: seq<Operation>, b: seq<Operation>)
    ensures Expand(a + b) == Expand(a) + Expand(b)
  {
    hide StepsOf;
    if a == [] {
      assert a + b == b;
      assert [] + Expand(b) == Expand(b);
    } else {
      ExpandConcat(a[1..], b);
      assert (a + b)[1..] == a[1..] + b;
      assert StepsOf(a[0]) + (Expand(a[1..]) + Expand(b)) == StepsOf(a[0]) + Expand(a[1..]) + Expand(b);
    }
  }

  lemma ExpandOne(op: Operation)
    ensures Expand([op]) == StepsOf(op)
  {
    hide StepsOf;
    assert Expand([op][1..]) == [];
    assert StepsOf(op) + [] == StepsOf(op);
  }

  lemma ExpandNext(ops: seq<Operation>, i: nat)
    requires i < |ops|
    ensures Expand(ops[i..]) == StepsOf(ops[i]) + Expand(ops[i + 1..])
  {
    hide StepsOf;
    assert ops[i..][1..] == ops[i + 1..];
  }

  lemma {:induction false} CountConcat(a: seq<Step>, b: seq<Step>)
    ensures Consumes(a + b) == Consumes(a) + Consumes(b)
    ensures Produces(a + b) == Produces(a) + Produces(b)
  {
    if a == [] {
      assert a + b == b;
    } else {
      CountConcat(a[1..], b);
      assert (a + b)[1..] == a[1..] + b;
    }
  }

  lemma {:induction false} CountTimes(n: nat, s: Step)
    ensures Consumes(Times(n, s)) == (if s.Put? then 0 else n)
    ensures Produces(Times(n, s)) == (if s.Drop? then 0 else n)
  {
    if n > 0 {
      CountTimes(n - 1, s);
      assert Times(n, s)[1..] == Times(n - 1, s);
    }
  }

  lemma {:induction false} CountPuts(s: seq<Byte>)
    ensures Consumes(Puts(s)) == 0 && Produces(Puts(s)) == |s|
  {
    if s != [] {
      CountPuts(s[1..]);
      assert Puts(s)[1..] == Puts(s[1..]);
    }
  }

  lemma CountSteps(op: Operation)
    ensures Consumes(StepsOf(op)) == match op case Retain(n) => n case Insert(_) => 0 case Delete(n) => n
    ensures Produces(StepsOf(op)) == match op case Retain(n) => n case Insert(s) => |s| case Delete(_) => 0
  {
    match op
    case Retain(n) => CountTimes(n, Keep);
    case Insert(s) => CountPuts(s);
    case Delete(n) => CountTimes(n, Drop);
  }

  lemma PerformCons(s: Step, st: seq<Step>, text: seq<Byte>)
    ensures Consumes([s] + st) == Takes(s) + Consumes(st)
    ensures Takes(s) <= |text| ==> Perform([s] + st, text) == Made(s, text) + Perform(st, text[Takes(s)..])
  {
    assert ([s] + st)[1..] == st;
    hide Made;
  }

  lemma PerformNothing()
    ensures Consumes([]) == 0 && Perform([], []) == []
  {
  }

  lemma {:induction false} PerformConcat(a: seq<Step>, b: seq<Step>, text: seq<Byte>)
    requires Consumes(a) + Consumes(b) == |text|
    ensures Consumes(a + b) == |text|
    ensures Perform(a + b, text) == Perform(a, text[..Consumes(a)]) + Perform(b, text[Consumes(a)..])
  {
    hide Perform, Consumes, Takes, Made;
    CountConcat(a, b);
    if a == [] {
      PerformNothing();
      assert a + b == b && text[0..] == text && text[..0] == [];
      assert [] + Perform(b, text) == Perform(b, text);
    } else {
      var s, t := a[0], a[1..];
      assert a == [s] + t && a + b == [s] + (t + b);
      PerformCons(s, t, text);
      PerformConcat(t, b, text[Takes(s)..]);
      PerformConcatCons(s, t, b, text);
    }
  }

  lemma PerformConcatCons(s: Step, t: seq<Step>, b: seq<Step>, text: seq<Byte>)
    requires Takes(s) + Consumes(t) + Consumes(b) == |text|
    requires var tail, n := text[Takes(s)..], Consumes(t);
             Perform(t + b, tail) == Perform(t, tail[..n]) + Perform(b, tail[n..])
    ensures var n := Takes(s) + Consumes(t);
            Perform([s] + (t + b), text) == Perform([s] + t, text[..n]) + Perform(b, text[n..])
  {
    hide Perform, Consumes, Takes, Made;
    var k := Takes(s);
    var n := k + Consumes(t);
    PerformCons(s, t, text[..n]);
    PerformCons(s, t + b, text);
    MadeByPrefix(s, text, n);
    SliceOfSlice(text, k, n);
    var first, more, last := Made(s, text), Perform(t, text[k..n]), Perform(b, text[n..]);
    assert first + more + last == first + (more + last);
  }

  lemma SliceOfSlice<T>(s: seq<T>, k: nat, n: nat)
    requires k <= n <= |s|
    ensures s[k..][..n - k] == s[..n][k..] == s[k..n] && s[k..][n - k..] == s[n..]
  {
  }

  lemma MadeByPrefix(s: Step, text: seq<Byte>, n: nat)
    requires Takes(s) <= n <= |text|
    ensures Made(s, text) == Made(s, text[..n])
  {
  }

  lemma {:induction false} PerformTimes(n: nat, s: Step, text: seq<Byte>)
    requires |text| == n && !s.Put?
    ensures Consumes(Times(n, s)) == n && Perform(Times(n, s), text) == if s.Keep? then text else []
  {
    CountTimes(n, s);
    if n > 0 {
      assert Times(n, s)[1..] == Times(n - 1, s);
      PerformTimes(n - 1, s, text[1..]);
    }
  }

  lemma {:induction false} PerformPuts(s: seq<Byte>)
    ensures Consumes(Puts(s)) == 0 && Perform(Puts(s), []) == s
  {
    CountPuts(s);
    if s != [] {
      assert Puts(s)[1..] == Puts(s[1..]);
      PerformPuts(s[1..]);
    }
  }

  /** What one operation makes of the text it takes up. */
  lemma PerformOperation(op: Operation, text: seq<Byte>)
    requires Consumes(StepsOf(op)) == |text|
    ensures Perform(StepsOf(op), text) == match op case Retain(_) => text case Insert(s) => s case Delete(_) => []
  {
    CountSteps(op);
    match op
    case Retain(n) => PerformTimes(n, Keep, text);
    case Insert(s) =>
      assert text == [];
      PerformPuts(s);
    case Delete(n) => PerformTimes(n, Drop, text);
  }

  // --------------------------------------------------------------- characters

  /** Where the character that starts at `pos` ends. */
  function CharEnd(text: seq<Byte>, pos: nat): (end: nat)
    requires pos < |text|
    ensures pos < end <= |text|
    decreases |text| - pos
  {
    if pos + 1 < |text| && Continuation(text[pos + 1]) then CharEnd(text, pos + 1) else pos + 1
  }

  /** How many characters there are from `pos` on. */
  function Chars(text: seq<Byte>, pos: nat): (n: nat)
    requires pos <= |text|
    ensures n <= |text| - pos
    decreases |text| - pos
  {
    if pos == |text| then 0 else 1 + Chars(text, CharEnd(text, pos))
  }

  /** As many characters as bytes: no continuation after the first byte. */
  lemma {:induction false} OnePerByte(text: seq<Byte>, pos: nat)
    requires pos <= |text|
    ensures Chars(text, pos) == |text| - pos <==> forall i :: pos < i < |text| ==> !Continuation(text[i])
    decreases |text| - pos
  {
    if pos < |text| {
      var end := CharEnd(text, pos);
      OnePerByte(text, end);
      if end > pos + 1 { assert Continuation(text[pos + 1]); }
    }
  }

  lemma PlainByChars(text: Text)
    ensures Plain(text) <==> Chars(text, 0) == |text|
  {
    OnePerByte(text, 0);
    if Chars(text, 0) == |text| {
      forall b | b in text ensures !Continuation(b) {
        var i :| 0 <= i < |text| && text[i] == b;
      }
    }
  }

  lemma PlainCharEnd(text: seq<Byte>, pos: nat)
    requires Plain(text) && pos < |text|
    ensures CharEnd(text, pos) == pos + 1
  {
  }

  /** `n` times `chars.next()`: where that leads, unless the text ends before. */
  method Advance(text: Text, pos: nat, n: nat) returns (end: Option<nat>)
    requires pos <= |text|
    ensures end.Some? ==> pos <= end.value <= |text| && Chars(text, end.value) + n == Chars(text, pos)
    ensures Plain(text) ==> end == if pos + n <= |text| then Some(pos + n) else None
  {
    var p := pos;
    for k := 0 to n
      invariant pos <= p <= |text| && Chars(text, p) + k == Chars(text, pos)
      invariant Plain(text) ==> p == pos + k
    {
      if p == |text| {
        return None;
      }
      if Plain(text) { PlainCharEnd(text, p); }
      p := CharEnd(text, p);
    }
    return Some(p);
  }

  // ----------------------------------------------------------- the operations

  /** No empty retain or delete. */
  predicate Positive(ops: seq<Operation>) {
    forall op :: op in ops ==> !(op.Retain? && op.n == 0) && !(op.Delete? && op.n == 0)
  }

  predicate NoEmptyInsert(ops: seq<Operation>) {
    forall op :: op in ops ==> !(op.Insert? && op.s == [])
  }

  predicate SameKind(x: Operation, y: Operation) {
    x.Retain? == y.Retain? && x.Insert? == y.Insert?
  }

  /** Neighbours are merged. */
  predicate Alternating(ops: seq<Operation>) {
    forall i :: 0 < i < |ops| ==> !SameKind(ops[i - 1], ops[i])
  }

  /** Appending merges with the last operation if it is of the same kind. */
  function Pushed(ops: seq<Operation>, op: Operation): seq<Operation> {
    if ops == [] then [op]
    else
      var front, last := ops[..|ops| - 1], ops[|ops| - 1];
      if last.Retain? && op.Retain? then front + [Retain(last.n + op.n)]
      else if last.Insert? && op.Insert? then front + [Insert(Joined(last.s, op.s))]
      else if last.Delete? && op.Delete? then front + [Delete(last.n + op.n)]
      else ops + [op]
  }

  function Joined(a: Text, b: Text): Text {
    if a == [] then b else a + b
  }

  lemma MergedSteps(a: Operation, b: Operation)
    ensures a.Retain? && b.Retain? ==> StepsOf(Retain(a.n + b.n)) == StepsOf(a) + StepsOf(b)
    ensures a.Insert? && b.Insert? ==> StepsOf(Insert(Joined(a.s, b.s))) == StepsOf(a) + StepsOf(b)
    ensures a.Delete? && b.Delete? ==> StepsOf(Delete(a.n + b.n)) == StepsOf(a) + StepsOf(b)
  {
    if a.Retain? && b.Retain? { TimesSplit(a.n, b.n, Keep); }
    if a.Insert? && b.Insert? {
      assert Joined(a.s, b.s) == a.s + b.s;
      PutsSplit(a.s, b.s);
    }
    if a.Delete? && b.Delete? { TimesSplit(a.n, b.n, Drop); }
  }

  lemma PushedSteps(ops: seq<Operation>, op: Operation)
    ensures Expand(Pushed(ops, op)) == Expand(ops) + StepsOf(op)
  {
    hide StepsOf, Expand, Joined;
    if Pushed(ops, op) == ops + [op] {
      ExpandOne(op);
      ExpandConcat(ops, [op]);
    } else {
      var last, r := ops[|ops| - 1], Pushed(ops, op);
      MergedSteps(last, op);
      LastReplaced(ops, r, op);
    }
  }

  lemma LastReplaced(ops: seq<Operation>, r: seq<Operation>, op: Operation)
    requires ops != [] && r != [] && r[..|r| - 1] == ops[..|ops| - 1]
    requires StepsOf(r[|r| - 1]) == StepsOf(ops[|ops| - 1]) + StepsOf(op)
    ensures Expand(r) == Expand(ops) + StepsOf(op)
  {
    hide *;
    LastSteps(ops);
    LastSteps(r);
    Grouped(Expand(ops[..|ops| - 1]), StepsOf(ops[|ops| - 1]), StepsOf(op));
  }

  lemma LastSteps(ops: seq<Operation>)
    requires ops != []
    ensures Expand(ops) == Expand(ops[..|ops| - 1]) + StepsOf(ops[|ops| - 1])
  {
    hide *;
    var front, last := ops[..|ops| - 1], ops[|ops| - 1];
    assert ops == front + [last];
    ExpandConcat(front, [last]);
    ExpandOne(last);
  }

  lemma Grouped<T>(a: seq<T>, b: seq<T>, c: seq<T>)
    ensures a + (b + c) == a + b + c
  {
  }

  lemma Append(ops: seq<Operation>, op: Operation)
    requires Positive(ops) && NoEmptyInsert(ops) && Alternating(ops)
    requires match op case Retain(n) => n > 0 case Insert(s) => s != [] case Delete(n) => n > 0
    ensures Positive(Pushed(ops, op)) && NoEmptyInsert(Pushed(ops, op)) && Alternating(Pushed(ops, op))
    ensures Expand(Pushed(ops, op)) == Expand(ops) + StepsOf(op)
    ensures Consumes(Expand(Pushed(ops, op))) ==
            Consumes(Expand(ops)) + match op case Retain(n) => n case Insert(_) => 0 case Delete(n) => n
    ensures Produces(Expand(Pushed(ops, op))) ==
            Produces(Expand(ops)) + match op case Retain(n) => n case Insert(s) => |s| case Delete(_) => 0
  {
    PushedSteps(ops, op);
    CountConcat(Expand(ops), StepsOf(op));
    CountSteps(op);
    hide Expand, StepsOf, Consumes, Produces;
  }

  /** What is still to be done to reach the result of all steps. */
  ghost predicate Remaining(result: seq<Byte>, rest: seq<Step>, text: seq<Byte>, pos: nat, all: seq<Step>) {
    && pos <= |text| && Consumes(rest) == |text| - pos && Consumes(all) == |text|
    && result + Perform(rest, text[pos..]) == Perform(all, text)
  }

  lemma PerformFrom(all: seq<Step>, text: seq<Byte>)
    requires Consumes(all) == |text|
    ensures Remaining([], all, text, 0, all)
  {
    assert text[0..] == text;
    assert [] + Perform(all, text) == Perform(all, text);
  }

  lemma PerformNext(result: seq<Byte>, op: Operation, rest: seq<Step>, text: seq<Byte>, pos: nat, all: seq<Step>)
    requires Remaining(result, StepsOf(op) + rest, text, pos, all)
    ensures Consumes(StepsOf(op)) == (match op case Retain(n) => n case Insert(_) => 0 case Delete(n) => n)
    ensures pos + Consumes(StepsOf(op)) <= |text|
    ensures Remaining(result + match op
                               case Retain(n) => text[pos..pos + n]
                               case Insert(s) => s
                               case Delete(_) => [],
                      rest, text, pos + Consumes(StepsOf(op)), all)
  {
    CountSteps(op);
    hide StepsOf, Consumes, Perform;
    var st, tail := StepsOf(op), text[pos..];
    CountConcat(st, rest);
    var k := Consumes(st);
    PerformConcat(st, rest, tail);
    PerformOperation(op, tail[..k]);
    assert tail[..k] == text[pos..pos + k] && tail[k..] == text[pos + k..];
    var made := Perform(st, tail[..k]);
    assert result + made + Perform(rest, tail[k..]) == result + (made + Perform(rest, tail[k..]));
  }

  /** The loop of `apply` before the operations that `rest` stands for: `count` is how
      many characters were taken, which on plain text is the position. */
  ghost predicate Progress(text: seq<Byte>, rest: seq<Step>, pos: nat, count: nat, result: seq<Byte>, all: seq<Step>) {
    && pos <= |text| && count + Consumes(rest) == |text| && Chars(text, pos) + count == Chars(text, 0)
    && (Plain(text) ==> pos == count && Remaining(result, rest, text, pos, all))
  }

  lemma ProgressStart(text: seq<Byte>, all: seq<Step>)
    requires Consumes(all) == |text|
    ensures Progress(text, all, 0, 0, [], all)
  {
    PerformFrom(all, text);
    hide Perform, Remaining;
  }

  lemma ProgressInsert(text: seq<Byte>, s: Text, rest: seq<Step>, pos: nat, count: nat, result: seq<Byte>,
                       all: seq<Step>)
    requires Progress(text, StepsOf(Insert(s)) + rest, pos, count, result, all)
    ensures Progress(text, rest, pos, count, result + s, all)
  {
    hide Remaining, StepsOf, Consumes, Chars, Plain;
    CountSteps(Insert(s));
    CountConcat(StepsOf(Insert(s)), rest);
    if Plain(text) { PerformNext(result, Insert(s), rest, text, pos, all); }
  }

  lemma ProgressTake(text: seq<Byte>, op: Operation, rest: seq<Step>, pos: nat, count: nat, result: seq<Byte>,
                     all: seq<Step>, end: nat)
    requires !op.Insert? && Progress(text, StepsOf(op) + rest, pos, count, result, all)
    requires pos <= end <= |text| && Chars(text, end) + op.n == Chars(text, pos) && (Plain(text) ==> end == pos + op.n)
    ensures Progress(text, rest, end, count + op.n, if op.Retain? then result + text[pos..end] else result, all)
  {
    hide Remaining, StepsOf, Consumes, Chars, Plain;
    CountSteps(op);
    CountConcat(StepsOf(op), rest);
    if Plain(text) {
      PerformNext(result, op, rest, text, pos, all);
      assert result + [] == result;
    }
  }

  /** On plain text there is always enough left to take. */
  lemma ProgressFits(text: seq<Byte>, op: Operation, rest: seq<Step>, pos: nat, count: nat, result: seq<Byte>,
                     all: seq<Step>)
    requires !op.Insert? && Progress(text, StepsOf(op) + rest, pos, count, result, all)
    ensures Plain(text) ==> pos + op.n <= |text|
  {
    hide Remaining, StepsOf, Consumes, Chars, Plain;
    CountSteps(op);
    CountConcat(StepsOf(op), rest);
  }

  lemma ProgressEnd(text: Text, count: nat, result: seq<Byte>, all: seq<Step>)
    requires Progress(text, [], |text|, count, result, all) && Consumes(all) == |text|
    ensures Plain(text) && result == Perform(all, text)
  {
    PlainByChars(text);
    hide Perform;
    assert result + [] == result;
    assert Perform([], text[|text|..]) == [];
  }

  lemma NoSteps()
    ensures Expand([]) == []
  {
  }

  /** After the last operation the text is used up, so the check of `apply` for
      unconsumed input never fires. */
  lemma NothingLeftOver(text: seq<Byte>, pos: nat, count: nat, result: seq<Byte>, all: seq<Step>)
    requires Progress(text, [], pos, count, result, all)
    ensures pos == |text|
  {
  }

  /** The result is text again. */
  lemma {:induction false} PerformIsText(ops: seq<Operation>, text: seq<Byte>)
    requires Plain(text) && Consumes(Expand(ops)) == |text|
    ensures var r := Perform(Expand(ops), text); r == [] || !Continuation(r[0])
  {
    if ops != [] {
      var st, rest := StepsOf(ops[0]), Expand(ops[1..]);
      CountConcat(st, rest);
      PerformConcat(st, rest, text);
      PerformOperation(ops[0], text[..Consumes(st)]);
      PerformIsText(ops[1..], text[Consumes(st)..]);
      hide StepsOf, Expand, Consumes, Perform;
    }
  }

  /** One pass of the loop of `apply`. */
  method ApplyOne(text: Text, op: Operation, ghost rest: seq<Step>, pos0: nat, ghost count0: nat, result0: seq<Byte>,
                  ghost all: seq<Step>)
    returns (ok: bool, pos: nat, result: seq<Byte>, ghost count: nat)
    requires Progress(text, StepsOf(op) + rest, pos0, count0, result0, all)
    ensures ok ==> Progress(text, rest, pos, count, result, all) && pos <= |text|
    ensures Plain(text) ==> ok
  {
    PositionInText(text, StepsOf(op) + rest, pos0, count0, result0, all);
    hide Progress, Plain, Chars, StepsOf;
    ok, pos, result, count := true, pos0, result0, count0;
    match op
    case Insert(s) =>
      ProgressInsert(text, s, rest, pos0, count0, result0, all);
      result := result0 + s;
      PositionInText(text, rest, pos, count, result, all);
    case Retain(n) =>
      ProgressFits(text, op, rest, pos0, count0, result0, all);
      var end := Advance(text, pos0, n);
      ok := end.Some?;
      if ok {
        ProgressTake(text, op, rest, pos0, count0, result0, all, end.value);
        result := result0 + text[pos0..end.value];
        pos, count := end.value, count0 + n;
      }
    case Delete(n) =>
      ProgressFits(text, op, rest, pos0, count0, result0, all);
      var end := Advance(text, pos0, n);
      ok := end.Some?;
      if ok {
        ProgressTake(text, op, rest, pos0, count0, result0, all, end.value);
        pos, count := end.value, count0 + n;
      }
  }

  lemma PositionInText(text: seq<Byte>, rest: seq<Step>, pos: nat, count: nat, result: seq<Byte>, all: seq<Step>)
    requires Progress(text, rest, pos, count, result, all)
    ensures pos <= |text|
  {
  }

  class TextOperation {
    var ops: seq<Operation>
    var baseLength: nat
    var targetLength: nat
    var expected: Option<nat>

    ghost function Steps(): seq<Step>
      reads this
    {
      Expand(ops)
    }

    /** The base length is the length the operations take up. */
    ghost predicate Counted()
      reads this
    {
      Positive(ops) && baseLength == Consumes(Steps())
    }

    /** What building an operation establishes; inverting does not always. */
    ghost predicate Valid()
      reads this
    {
      Counted() && NoEmptyInsert(ops) && Alternating(ops) && targetLength == Produces(Steps())
    }

    /** `check_expected_base_length` */
    predicate Declared(): (ok: bool)
      reads this
      ensures ok <==> forall n :: expected == Some(n) ==> n == baseLength
    {
      expected == None || expected.value == baseLength
    }

    constructor ()
      ensures Valid() && Steps() == [] && expected == None && Declared()
    {
      ops, baseLength, targetLength, expected := [], 0, 0, None;
    }

    constructor WithBaseLength(n: nat)
      ensures Valid() && Steps() == [] && expected == Some(n)
    {
      ops, baseLength, targetLength, expected := [], 0, 0, Some(n);
    }

    method Retain(n: nat)
      requires Valid()
      modifies this
      ensures Valid() && Steps() == old(Steps()) + Times(n, Keep) && expected == old(expected)
    {
      if n == 0 {
        assert Steps() + [] == Steps();
        return;
      }
      hide Expand, StepsOf, Consumes, Produces, Pushed, Positive, NoEmptyInsert, Alternating;
      Append(ops, Operation.Retain(n));
      baseLength := baseLength + n;
      targetLength := targetLength + n;
      ops := Pushed(ops, Operation.Retain(n));
    }

    method Insert(text: Text)
      requires Valid()
      modifies this
      ensures Valid() && Steps() == old(Steps()) + Puts(text) && expected == old(expected)
    {
      if text == [] {
        assert Steps() + [] == Steps();
        return;
      }
      hide Expand, StepsOf, Consumes, Produces, Pushed, Positive, NoEmptyInsert, Alternating;
      Append(ops, Operation.Insert(text));
      targetLength := targetLength + |text|;
      ops := Pushed(ops, Operation.Insert(text));
    }

    method Delete(n: nat)
      requires Valid()
      modifies this
      ensures Valid() && Steps() == old(Steps()) + Times(n, Drop) && expected == old(expected)
    {
      if n == 0 {
        assert Steps() + [] == Steps();
        return;
      }
      hide Expand, StepsOf, Consumes, Produces, Pushed, Positive, NoEmptyInsert, Alternating;
      Append(ops, Operation.Delete(n));
      baseLength := baseLength + n;
      ops := Pushed(ops, Operation.Delete(n));
    }

    method Apply(text: Text) returns (r: Option<Text>)
      requires Counted()
      ensures r == if Declared() then Applied(Steps(), text) else None
    {
      if !Declared() {
        return None;
      }
      if |text| != baseLength {
        return None;
      }
      hide Progress, Plain, Chars, Consumes, Expand, StepsOf, Perform;
      var result: seq<Byte> := [];
      var pos: nat := 0;
      ghost var count: nat := 0;
      assert ops[0..] == ops;
      ProgressStart(text, Steps());
      for i := 0 to |ops|
        invariant pos <= |text| && Progress(text, Expand(ops[i..]), pos, count, result, Steps())
      {
        ExpandNext(ops, i);
        var ok;
        ok, pos, result, count := ApplyOne(text, ops[i], Expand(ops[i + 1..]), pos, count, result, Steps());
        if !ok {
          return None;
        }
      }
      assert ops[|ops|..] == [];
      NoSteps();
      NothingLeftOver(text, pos, count, result, Steps());
      ProgressEnd(text, count, result, Steps());
      PerformIsText(ops, text);
      return Some(result);
    }

    /** `transform`; null stands for the error. With `left` its insertions go first. */
    method TransformAgainst(other: TextOperation, left: bool) returns (result: TextOperation?)
      requires Counted() && other.Counted()
      ensures result == null <==> !(Declared() && other.Declared() && baseLength == other.baseLength)
      ensures result != null ==>
                && fresh(result) && result.Valid() && result.expected == None
                && result.Steps() == Transformed(Steps(), other.Steps(), left)
    {
      if !Declared() || !other.Declared() || baseLength != other.baseLength {
        return null;
      }
      hide Expand, Transformed, Consumes, Produces, Times, Puts, Positive, NoEmptyInsert, Alternating, Transforming,
           Outcome;
      var r := new TextOperation();
      var ops1, ops2 := ops, other.ops;
      ghost var all := Transformed(Steps(), other.Steps(), left);
      NothingTransformed(ops1, ops2, left);
      while ops1 != [] || ops2 != []
        invariant fresh(r) && r.Valid() && r.expected == None
        invariant Transforming(r.Steps(), ops1, ops2, left, all)
        decreases |ops1| + |ops2|
      {
        var selfHasInsert := ops1 != [] && ops1[0].Insert?;
        var otherHasInsert := ops2 != [] && ops2[0].Insert?;
        var selfGoesFirst := selfHasInsert && (left || !otherHasInsert);
        ghost var done := r.Steps();
        if selfGoesFirst {
          SelfFirst(ops1, ops2, left, done, all);
          r.Insert(ops1[0].s);
          ops1 := ops1[1..];
          continue;
        }
        if otherHasInsert {
          OtherFirst(ops1, ops2, left, done, all);
          r.Retain(|ops2[0].s|);
          ops2 := ops2[1..];
          continue;
        }
        if ops1 == [] || ops2 == [] {
          OneExhausted(ops1, ops2, left, done, all);
          result := r;
          return;
        }
        var m := Min(ops1[0].n, ops2[0].n);
        TakeFirst(ops1, ops2, left, done, all, m);
        if ops1[0].Retain? && ops2[0].Retain? {
          r.Retain(m);
        } else if !(ops1[0].Delete? && ops2[0].Delete?) {
          r.Delete(m);
        }
        ops1, ops2 := Cut(ops1, m), Cut(ops2, m);
      }
      OneExhausted(ops1, ops2, left, r.Steps(), all);
      result := r;
    }

    method SetLengths(base: nat, target: nat)
      modifies this
      ensures ops == old(ops) && expected == old(expected) && baseLength == base && targetLength == target
    {
      baseLength := base;
      targetLength := target;
    }

    /** `compose`; `self` first, then `other`. Cutting an insertion inside a character panics. */
    method Compose(other: TextOperation) returns (r: Composition)
      requires Counted() && NoEmptyInsert(ops) && other.Counted()
      ensures r.Invalid? <==> !(Declared() && other.Declared() && targetLength == other.baseLength)
      ensures !r.Invalid? ==> (r.Panic? <==> Torn(Output(Steps()), other.ops))
      ensures r.Done? ==>
                && fresh(r.op) && r.op.expected == None
                && r.op.Steps() == Composed(Steps(), other.Steps())
                && r.op.baseLength == baseLength && r.op.targetLength == other.targetLength
                && (Valid() && other.Valid() ==> r.op.Valid())
    {
      if !Declared() || !other.Declared() || targetLength != other.baseLength {
        return Invalid;
      }
      hide Expand, Composed, Consumes, Produces, Times, Puts, Positive, NoEmptyInsert, Alternating, Composing, Torn,
           Output;
      var c := new TextOperation();
      var ops1, ops2 := ops, other.ops;
      ghost var torn := Torn(Output(Steps()), ops2);
      ghost var all := Composed(Steps(), other.Steps());
      NothingComposed(ops1, ops2);
      while ops1 != [] || ops2 != []
        invariant fresh(c) && c.Valid() && c.expected == None
        invariant Composing(c.Steps(), ops1, ops2, all, torn)
        decreases |ops1| + |ops2|
      {
        ghost var done := c.Steps();
        if ops1 != [] && ops1[0].Delete? {
          DeleteFirst(ops1, ops2, done, all, torn);
          c.Delete(ops1[0].n);
          ops1 := ops1[1..];
          continue;
        }
        if ops2 != [] && ops2[0].Insert? {
          InsertFirst(ops1, ops2, done, all, torn);
          c.Insert(ops2[0].s);
          ops2 := ops2[1..];
          continue;
        }
        if ops1 == [] || ops2 == [] {
          break;
        }
        var panic;
        panic, ops1, ops2 := ComposeTwo(c, ops1, ops2, all, torn);
        if panic {
          return Panic;
        }
      }
      ComposeEnds(ops1, ops2, c.Steps(), all, torn);
      if Valid() && other.Valid() { ComposedLength(Steps(), other.Steps()); }
      c.SetLengths(baseLength, other.targetLength);
      return Done(c);
    }

    /** `invert`; null stands for the error. */
    method Invert() returns (result: TextOperation?)
      ensures result == null <==> !Declared()
      ensures result != null ==>
                && fresh(result) && result.expected == None && result.Steps() == Inverse(Steps())
                && result.baseLength == targetLength && result.targetLength == baseLength
                && (Valid() ==> result.Counted() && (result.Valid() <==> Drop !in Steps()))
    {
      if !Declared() {
        return null;
      }
      hide Expand, Consumes, Produces, Inverse, Inverting, Alternating;
      var r := new TextOperation();
      r.baseLength := targetLength;
      r.targetLength := baseLength;
      NothingInverted();
      for i := |ops| downto 0
        invariant fresh(r) && r.baseLength == targetLength && r.targetLength == baseLength && r.expected == None
        invariant Inverting(r.ops, ops[i..])
      {
        InvertNext(r.ops, ops, i);
        match ops[i]
        case Retain(n) => r.ops := [Operation.Retain(n)] + r.ops;
        case Insert(s) => r.ops := [Operation.Delete(|s|)] + r.ops;
        case Delete(_) => r.ops := [Operation.Insert([])] + r.ops;
      }
      assert ops[0..] == ops;
      InvertEnds(r.ops, ops);
      return r;
    }
  }

  /** The match of `compose`: the first operation of either side takes up as many
      bytes of the text between them; an insertion is cut at a whole character. */
  method ComposeTwo(c: TextOperation, ops1: seq<Operation>, ops2: seq<Operation>, ghost all: seq<Step>,
                    ghost torn: bool)
    returns (panic: bool, rest1: seq<Operation>, rest2: seq<Operation>)
    requires c.Valid() && Composing(c.Steps(), ops1, ops2, all, torn)
    requires ops1 != [] && !ops1[0].Delete? && ops2 != [] && !ops2[0].Insert?
    modifies c
    ensures c.Valid() && c.expected == old(c.expected)
    ensures panic ==> torn
    ensures !panic ==> Composing(c.Steps(), rest1, rest2, all, torn) && |rest1| + |rest2| < |ops1| + |ops2|
  {
    hide Expand, Composed, Consumes, Produces, Times, Puts, Positive, NoEmptyInsert, Alternating, Composing, Torn,
         Output;
    panic, rest1, rest2 := false, ops1, ops2;
    ghost var done := c.Steps();
    var n := ops2[0].n;
    if ops1[0].Retain? {
      var m := Min(ops1[0].n, n);
      RetainMeets(ops1, ops2, done, all, torn, m);
      if ops2[0].Retain? {
        c.Retain(m);
      } else {
        c.Delete(m);
      }
      rest1, rest2 := Cut(ops1, m), Cut(ops2, m);
    } else {
      var s := ops1[0].s;
      if |s| > n && Continuation(s[n]) {
        CharacterTorn(ops1, ops2, done, all, torn);
        panic := true;
        return;
      }
      var m := Min(|s|, n);
      InsertMeets(ops1, ops2, done, all, torn, m);
      assert done + [] == done;
      if ops2[0].Retain? {
        c.Insert(Prefix(s, m));
      }
      rest1, rest2 := CutInsert(ops1, m), Cut(ops2, m);
    }
  }

  /** `transform_pair`; a missing result stands for the error. */
  method TransformPair(a: TextOperation, b: TextOperation) returns (a1: TextOperation?, b1: TextOperation?)
    requires a.Counted() && b.Counted()
    ensures a1 == null <==> b1 == null
    ensures a1 == null <==> !(a.Declared() && b.Declared() && a.baseLength == b.baseLength)
    ensures a1 != null ==> a1.Valid() && a1.Declared() && a1.Steps() == Transformed(a.Steps(), b.Steps(), true)
    ensures b1 != null ==> b1.Valid() && b1.Declared() && b1.Steps() == Transformed(b.Steps(), a.Steps(), false)
  {
    hide Expand, Transformed, Consumes, Produces, Positive, NoEmptyInsert;
    a1 := a.TransformAgainst(b, true);
    if a1 == null {
      b1 := null;
      return;
    }
    b1 := b.TransformAgainst(a, false);
  }

  /** A document edited on two sites: each applies its own operation and then the
      other one's, transformed. They end with the same text if and only if both
      operations are for this document, delete the same bytes of it, and it and all
      insertions have single-byte characters only. */
  method EditConcurrently(a: TextOperation, b: TextOperation, text: Text)
    returns (one: Option<Text>, other: Option<Text>)
    requires a.Counted() && b.Counted()
    ensures one.Some? && one == other <==>
            && a.Declared() && b.Declared() && a.baseLength == b.baseLength == |text|
            && Plain(text) && Drops(a.Steps()) == Drops(b.Steps()) && PlainPuts(a.Steps()) && PlainPuts(b.Steps())
    ensures one.Some? && one == other ==> one.value == Merged(a.Steps(), b.Steps(), true, text)
  {
    hide Expand, Transformed, Consumes, Produces, Positive, NoEmptyInsert, Alternating, Perform, Plain, PlainPuts,
         Drops, Merged;
    one, other := None, None;
    var a1, b1 := TransformPair(a, b);
    if a1 == null {
      return;
    }
    var onA := a.Apply(text);
    var onB := b.Apply(text);
    if onA.Some? { one := b1.Apply(onA.value); }
    if onB.Some? { other := a1.Apply(onB.value); }
    if |text| == a.baseLength && Plain(text) {
      ConvergesIff(a.Steps(), b.Steps(), text);
      if Drops(a.Steps()) == Drops(b.Steps()) {
        NothingLost(Drops(a.Steps()), Drops(b.Steps()));
        TransformedMerges(a.Steps(), b.Steps(), true, text);
      }
    }
  }

  /** What comes of `compose`: an operation, an error, or a panic. */
  datatype Composition = Done(op: TextOperation) | Invalid | Panic

  // -------------------------------------------------------------------- UTF-8

  /** What a Rust `char` is. */
  type CodePoint = c: int | 0 <= c < 0xD800 || 0xE000 <= c < 0x110000

  /** A code point in UTF-8, section 3 of RFC 3629. */
  function Utf8Char(c: CodePoint): (b: seq<Byte>)
    ensures b != []
  {
    if c < 0x80 then [c]
    else if c < 0x800 then [0xC0 + c / 64, 0x80 + c % 64]
    else if c < 0x10000 then [0xE0 + c / 4096, 0x80 + (c / 64) % 64, 0x80 + c % 64]
    else [0xF0 + c / 262144, 0x80 + (c / 4096) % 64, 0x80 + (c / 64) % 64, 0x80 + c % 64]
  }

  function Utf8(cs: seq<CodePoint>): seq<Byte> {
    if cs == [] then [] else Utf8Char(cs[0]) + Utf8(cs[1..])
  }

  /** Encoded text starts with a whole character, its characters are those that were
      encoded, and it is plain if and only if all of them are ASCII. */
  lemma {:induction false} Utf8Counts(cs: seq<CodePoint>)
    ensures Utf8(cs) == [] || !Continuation(Utf8(cs)[0])
    ensures Chars(Utf8(cs), 0) == |cs|
    ensures Plain(Utf8(cs)) <==> forall c :: c in cs ==> c < 0x80
  {
    if cs != [] {
      var a, b := Utf8Char(cs[0]), Utf8(cs[1..]);
      Utf8Counts(cs[1..]);
      OneChar(cs[0]);
      hide Utf8Char;
      CharEnds(a, b, 0);
      CharsShift(a, b, 0);
      PlainConcat(a, b);
      AllAscii(cs);
    }
  }

  lemma AllAscii(cs: seq<CodePoint>)
    requires cs != []
    ensures (forall c :: c in cs ==> c < 0x80) <==> cs[0] < 0x80 && forall c :: c in cs[1..] ==> c < 0x80
  {
    SplitFirst(cs);
    assert cs[0] in cs && forall c :: c in cs[1..] ==> c in cs;
  }

  lemma OneChar(c: CodePoint)
    ensures var b := Utf8Char(c);
            && !Continuation(b[0]) && (forall i :: 0 < i < |b| ==> Continuation(b[i]))
            && (Plain(b) <==> c < 0x80)
  {
    var b := Utf8Char(c);
    if c >= 0x80 { assert b[1] in b; }
  }

  /** A character ends where the next one starts. */
  lemma {:induction false} CharEnds(a: seq<Byte>, b: seq<Byte>, pos: nat)
    requires pos < |a| && (forall i :: pos < i < |a| ==> Continuation(a[i])) && (b == [] || !Continuation(b[0]))
    ensures CharEnd(a + b, pos) == |a|
    decreases |a| - pos
  {
    if pos + 1 < |a| { CharEnds(a, b, pos + 1); }
  }

  lemma {:induction false} CharsShift(a: seq<Byte>, b: seq<Byte>, pos: nat)
    requires pos <= |b|
    ensures Chars(a + b, |a| + pos) == Chars(b, pos)
    decreases |b| - pos
  {
    if pos < |b| {
      CharEndShift(a, b, pos);
      CharsShift(a, b, CharEnd(b, pos));
    }
  }

  lemma {:induction false} CharEndShift(a: seq<Byte>, b: seq<Byte>, pos: nat)
    requires pos < |b|
    ensures CharEnd(a + b, |a| + pos) == |a| + CharEnd(b, pos)
    decreases |b| - pos
  {
    if pos + 1 < |b| && Continuation(b[pos + 1]) { CharEndShift(a, b, pos + 1); }
  }

  // --------------------------------------------------- what an operation does

  /** How many bytes the operations take up. */
  function Taken(ops: seq<Operation>): nat {
    if ops == [] then 0
    else (match ops[0] case Retain(n) => n case Insert(_) => 0 case Delete(n) => n) + Taken(ops[1..])
  }

  /** The document edited: stretches kept, text put in, stretches left out. */
  function Edited(ops: seq<Operation>, text: seq<Byte>): seq<Byte>
    requires Taken(ops) == |text|
  {
    if ops == [] then []
    else
      match ops[0]
      case Retain(n) => text[..n] + Edited(ops[1..], text[n..])
      case Insert(s) => s + Edited(ops[1..], text)
      case Delete(n) => Edited(ops[1..], text[n..])
  }

  lemma {:induction false} TakenIs(ops: seq<Operation>)
    ensures Taken(ops) == Consumes(Expand(ops))
  {
    hide StepsOf, Consumes;
    if ops == [] {
      PerformNothing();
    } else {
      TakenIs(ops[1..]);
      CountSteps(ops[0]);
      CountConcat(StepsOf(ops[0]), Expand(ops[1..]));
    }
  }

  lemma {:induction false} EditedIs(ops: seq<Operation>, text: seq<Byte>)
    requires Taken(ops) == |text|
    ensures Edited(ops, text) == Perform(Expand(ops), text)
  {
    hide StepsOf, Consumes, Perform;
    if ops == [] {
      PerformNothing();
    } else {
      var st, rest := StepsOf(ops[0]), Expand(ops[1..]);
      var k := Consumes(st);
      TakenIs(ops[1..]);
      CountSteps(ops[0]);
      EditedIs(ops[1..], text[k..]);
      PerformConcat(st, rest, text);
      PerformOperation(ops[0], text[..k]);
      assert text[0..] == text;
      if ops[0].Delete? { assert [] + Perform(rest, text[k..]) == Perform(rest, text[k..]); }
    }
  }

  /** Applying operations to text whose characters are single bytes, in their own terms. */
  lemma AppliedMeaning(ops: seq<Operation>, text: seq<Byte>)
    ensures Applied(Expand(ops), text) ==
            if |text| == Taken(ops) && (forall b :: b in text ==> b < 128 || b >= 192) then Some(Edited(ops, text))
            else None
  {
    TakenIs(ops);
    if |text| == Taken(ops) { EditedIs(ops, text); }
    hide Perform, Consumes, Taken, Edited;
  }

  // ------------------------------------------------- transforming, step by step

  predicate StartsWithPut(st: seq<Step>) {
    st != [] && st[0].Put?
  }

  /** `transform`: what to do after `b` to have the effect of `a`. With `left`
      insertions of `a` go before those of `b` at the same place. */
  function Transformed(a: seq<Step>, b: seq<Step>, left: bool): seq<Step>
    decreases |a| + |b|
  {
    if StartsWithPut(a) && (left || !StartsWithPut(b)) then [a[0]] + Transformed(a[1..], b, left)
    else if StartsWithPut(b) then [Keep] + Transformed(a, b[1..], left)
    else if a == [] || b == [] then []
    else if a[0] == Keep && b[0] == Keep then [Keep] + Transformed(a[1..], b[1..], left)
    else if a[0] == Drop && b[0] == Drop then Transformed(a[1..], b[1..], left)
    else [Drop] + Transformed(a[1..], b[1..], left)
  }

  /** For each byte of the document, whether it is deleted. */
  function Drops(st: seq<Step>): (r: seq<bool>)
    ensures |r| == Consumes(st)
  {
    if st == [] then []
    else if st[0].Put? then Drops(st[1..])
    else [st[0].Drop?] + Drops(st[1..])
  }

  /** How many places `q` deletes that `p` keeps. */
  function Lost(p: seq<bool>, q: seq<bool>): nat {
    if p == [] || q == [] then 0 else (if !p[0] && q[0] then 1 else 0) + Lost(p[1..], q[1..])
  }

  lemma {:induction false} NothingLost(p: seq<bool>, q: seq<bool>)
    requires |p| == |q|
    ensures Lost(p, q) == 0 && Lost(q, p) == 0 <==> p == q
  {
    if p != [] {
      NothingLost(p[1..], q[1..]);
      assert p == [p[0]] + p[1..] && q == [q[0]] + q[1..];
    }
  }

  /** The transformed operation takes up what `b` leaves and, wrongly, once more
      each byte that `a` keeps and `b` has already deleted. */
  lemma {:induction false} TransformedLength(a: seq<Step>, b: seq<Step>, left: bool)
    requires Consumes(a) == Consumes(b)
    ensures Consumes(Transformed(a, b, left)) == Produces(b) + Lost(Drops(a), Drops(b))
    decreases |a| + |b|
  {
    var t := Transformed(a, b, left);
    if StartsWithPut(a) && (left || !StartsWithPut(b)) {
      TransformedLength(a[1..], b, left);
      assert t[1..] == Transformed(a[1..], b, left);
    } else if StartsWithPut(b) {
      TransformedLength(a, b[1..], left);
      assert t[1..] == Transformed(a, b[1..], left);
    } else if a != [] && b != [] {
      TransformedLength(a[1..], b[1..], left);
      if t != Transformed(a[1..], b[1..], left) { assert t[1..] == Transformed(a[1..], b[1..], left); }
      assert Drops(a)[1..] == Drops(a[1..]) && Drops(b)[1..] == Drops(b[1..]);
    }
  }

  // One step at the front.

  lemma KeepFirst(st: seq<Step>, x: Byte, text: seq<Byte>)
    ensures Perform([Keep] + st, [x] + text) == [x] + Perform(st, text)
  {
    PerformCons(Keep, st, [x] + text);
    hide Perform;
    assert ([x] + text)[1..] == text;
  }

  lemma DropFirst(st: seq<Step>, x: Byte, text: seq<Byte>)
    ensures Perform([Drop] + st, [x] + text) == Perform(st, text)
  {
    PerformCons(Drop, st, [x] + text);
    hide Perform;
    assert ([x] + text)[1..] == text;
    assert [] + Perform(st, text) == Perform(st, text);
  }

  lemma PutFirst(b: Byte, st: seq<Step>, text: seq<Byte>)
    ensures Perform([Put(b)] + st, text) == [b] + Perform(st, text)
  {
    PerformCons(Put(b), st, text);
    hide Perform;
    assert text[0..] == text;
  }

  lemma SplitFirst<T>(s: seq<T>)
    requires s != []
    ensures s == [s[0]] + s[1..]
  {
  }

  /** Both ways around lead to the same text when the same bytes are deleted. */
  lemma {:induction false} BothWaysMeet(a: seq<Step>, b: seq<Step>, text: seq<Byte>)
    requires Consumes(a) == Consumes(b) == |text| && Drops(a) == Drops(b)
    ensures Perform(Transformed(b, a, false), Perform(a, text)) == Perform(Transformed(a, b, true), Perform(b, text))
    decreases |a| + |b|
  {
    hide Perform;
    if StartsWithPut(a) {
      BothWaysMeet(a[1..], b, text);
      PutMeets(a, b, text);
    } else if StartsWithPut(b) {
      BothWaysMeet(a, b[1..], text);
      OtherPutMeets(a, b, text);
    } else if a == [] {
      assert b == [];
      PerformNothing();
    } else {
      assert Drops(a)[0] == Drops(b)[0] && Drops(a)[1..] == Drops(a[1..]) && Drops(b)[1..] == Drops(b[1..]);
      BothWaysMeet(a[1..], b[1..], text[1..]);
      TakeMeets(a, b, text);
    }
  }

  lemma PutMeets(a: seq<Step>, b: seq<Step>, text: seq<Byte>)
    requires StartsWithPut(a)
    requires Perform(Transformed(b, a[1..], false), Perform(a[1..], text)) ==
             Perform(Transformed(a[1..], b, true), Perform(b, text))
    ensures Perform(Transformed(b, a, false), Perform(a, text)) == Perform(Transformed(a, b, true), Perform(b, text))
  {
    var p, rest := a[0].b, a[1..];
    assert Transformed(a, b, true) == [Put(p)] + Transformed(rest, b, true);
    assert Transformed(b, a, false) == [Keep] + Transformed(b, rest, false);
    hide Transformed, Perform;
    SplitFirst(a);
    PutFirst(p, rest, text);
    KeepFirst(Transformed(b, rest, false), p, Perform(rest, text));
    PutFirst(p, Transformed(rest, b, true), Perform(b, text));
  }

  lemma OtherPutMeets(a: seq<Step>, b: seq<Step>, text: seq<Byte>)
    requires StartsWithPut(b) && !StartsWithPut(a)
    requires Perform(Transformed(b[1..], a, false), Perform(a, text)) ==
             Perform(Transformed(a, b[1..], true), Perform(b[1..], text))
    ensures Perform(Transformed(b, a, false), Perform(a, text)) == Perform(Transformed(a, b, true), Perform(b, text))
  {
    var p, rest := b[0].b, b[1..];
    assert Transformed(b, a, false) == [Put(p)] + Transformed(rest, a, false);
    assert Transformed(a, b, true) == [Keep] + Transformed(a, rest, true);
    hide Transformed, Perform;
    SplitFirst(b);
    PutFirst(p, rest, text);
    KeepFirst(Transformed(a, rest, true), p, Perform(rest, text));
    PutFirst(p, Transformed(rest, a, false), Perform(a, text));
  }

  lemma TakeMeets(a: seq<Step>, b: seq<Step>, text: seq<Byte>)
    requires a != [] && b != [] && text != [] && a[0] == b[0] && !a[0].Put?
    requires Perform(Transformed(b[1..], a[1..], false), Perform(a[1..], text[1..])) ==
             Perform(Transformed(a[1..], b[1..], true), Perform(b[1..], text[1..]))
    ensures Perform(Transformed(b, a, false), Perform(a, text)) == Perform(Transformed(a, b, true), Perform(b, text))
  {
    var x, t, a1, b1 := text[0], text[1..], a[1..], b[1..];
    TakeBoth(a, b);
    hide Transformed, Perform;
    SplitFirst(a);
    SplitFirst(b);
    SplitFirst(text);
    if a[0] == Keep {
      KeepFirst(a1, x, t);
      KeepFirst(b1, x, t);
      KeepFirst(Transformed(a1, b1, true), x, Perform(b1, t));
      KeepFirst(Transformed(b1, a1, false), x, Perform(a1, t));
    } else {
      DropFirst(a1, x, t);
      DropFirst(b1, x, t);
    }
  }

  lemma TakeBoth(a: seq<Step>, b: seq<Step>)
    requires a != [] && b != [] && a[0] == b[0] && !a[0].Put?
    ensures a[0] == Keep ==>
              && Transformed(a, b, true) == [Keep] + Transformed(a[1..], b[1..], true)
              && Transformed(b, a, false) == [Keep] + Transformed(b[1..], a[1..], false)
    ensures a[0] == Drop ==>
              && Transformed(a, b, true) == Transformed(a[1..], b[1..], true)
              && Transformed(b, a, false) == Transformed(b[1..], a[1..], false)
  {
  }

  // ---------------------------------------------------- what transforming means

  /** The bytes inserted before the next byte of the document is taken up, and the
      steps from there on. */
  function Lead(st: seq<Step>): seq<Byte> {
    if StartsWithPut(st) then [st[0].b] + Lead(st[1..]) else []
  }

  function After(st: seq<Step>): (r: seq<Step>)
    ensures !StartsWithPut(r) && |r| <= |st| && Consumes(r) == Consumes(st)
  {
    if StartsWithPut(st) then After(st[1..]) else st
  }

  /** Both edits of a document in one: all insertions, those of `a` first at the same
      place if `left`, and the bytes that both keep. */
  function Merged(a: seq<Step>, b: seq<Step>, left: bool, text: seq<Byte>): seq<Byte>
    requires Consumes(a) == Consumes(b) == |text|
    decreases |text|, 1
  {
    (if left then Lead(a) + Lead(b) else Lead(b) + Lead(a)) + Rest(a, b, left, text)
  }

  function Rest(a: seq<Step>, b: seq<Step>, left: bool, text: seq<Byte>): seq<Byte>
    requires Consumes(a) == Consumes(b) == |text|
    decreases |text|, 0
  {
    if text == [] then []
    else
      var p, q := After(a), After(b);
      (if p[0].Keep? && q[0].Keep? then [text[0]] else []) + Merged(p[1..], q[1..], left, text[1..])
  }

  lemma MergedFrom(a: seq<Step>, b: seq<Step>, left: bool, text: seq<Byte>)
    requires Consumes(a) == Consumes(b) == |text|
    ensures Merged(a, b, left, text) ==
            (if left then Lead(a) + Lead(b) else Lead(b) + Lead(a)) + Rest(a, b, left, text)
    ensures forall c, d :: After(c) == After(a) && After(d) == After(b) && Consumes(c) == Consumes(d) == |text| ==>
                             Rest(c, d, left, text) == Rest(a, b, left, text)
  {
    hide After, Lead;
  }

  lemma MergedPut(x: Byte, a: seq<Step>, b: seq<Step>, left: bool, text: seq<Byte>)
    requires Consumes(a) == Consumes(b) == |text| && (left || Lead(b) == [])
    ensures Consumes([Put(x)] + a) == |text|
    ensures Merged([Put(x)] + a, b, left, text) == [x] + Merged(a, b, left, text)
  {
    var c := [Put(x)] + a;
    assert c[1..] == a;
    assert Lead(c) == [x] + Lead(a) && After(c) == After(a);
    hide Lead, After, Consumes;
    assert Lead(c) + Lead(b) == [x] + (Lead(a) + Lead(b));
    assert [] + Lead(c) == Lead(c) && [] + Lead(a) == Lead(a);
    MergedFrom(c, b, left, text);
    MergedFrom(a, b, left, text);
    hide Merged;
    Grouped([x], if left then Lead(a) + Lead(b) else Lead(b) + Lead(a), Rest(a, b, left, text));
  }

  lemma MergedOther(x: Byte, a: seq<Step>, b: seq<Step>, left: bool, text: seq<Byte>)
    requires Consumes(a) == Consumes(b) == |text| && (left ==> Lead(a) == [])
    ensures Consumes([Put(x)] + b) == |text|
    ensures Merged(a, [Put(x)] + b, left, text) == [x] + Merged(a, b, left, text)
  {
    var c := [Put(x)] + b;
    assert c[1..] == b;
    assert Lead(c) == [x] + Lead(b) && After(c) == After(b);
    hide Lead, After, Consumes;
    assert Lead(c) + Lead(a) == [x] + (Lead(b) + Lead(a));
    assert [] + Lead(c) == Lead(c) && [] + Lead(b) == Lead(b);
    MergedFrom(a, c, left, text);
    MergedFrom(a, b, left, text);
    hide Merged;
    Grouped([x], if left then Lead(a) + Lead(b) else Lead(b) + Lead(a), Rest(a, b, left, text));
  }

  lemma MergedTake(s: Step, t: Step, a: seq<Step>, b: seq<Step>, left: bool, x: Byte, text: seq<Byte>)
    requires Consumes(a) == Consumes(b) == |text| && !s.Put? && !t.Put?
    ensures Consumes([s] + a) == Consumes([t] + b) == |[x] + text|
    ensures Merged([s] + a, [t] + b, left, [x] + text) ==
            (if s.Keep? && t.Keep? then [x] else []) + Merged(a, b, left, text)
  {
    var c, d, more := [s] + a, [t] + b, Merged(a, b, left, text);
    assert c[1..] == a && d[1..] == b && ([x] + text)[1..] == text;
    assert Lead(c) == Lead(d) == [] && After(c) == c && After(d) == d;
    hide Lead, After, Consumes;
    var both: seq<Byte> := if s.Keep? && t.Keep? then [x] else [];
    assert [] + (both + more) == both + more;
  }

  /** Where the transformed operation applies at all, it leads to the merged text. */
  lemma {:induction false} TransformedMerges(a: seq<Step>, b: seq<Step>, left: bool, text: seq<Byte>)
    requires Consumes(a) == Consumes(b) == |text| && Lost(Drops(a), Drops(b)) == 0
    ensures Perform(Transformed(a, b, left), Perform(b, text)) == Merged(a, b, left, text)
    decreases |a| + |b|
  {
    hide Perform, Merged;
    if StartsWithPut(a) && (left || !StartsWithPut(b)) {
      SplitFirst(a);
      TransformedMerges(a[1..], b, left, text);
      PutFirst(a[0].b, Transformed(a[1..], b, left), Perform(b, text));
      MergedPut(a[0].b, a[1..], b, left, text);
    } else if StartsWithPut(b) {
      SplitFirst(b);
      TransformedMerges(a, b[1..], left, text);
      PutFirst(b[0].b, b[1..], text);
      KeepFirst(Transformed(a, b[1..], left), b[0].b, Perform(b[1..], text));
      MergedOther(b[0].b, a, b[1..], left, text);
    } else if a == [] || b == [] {
      assert a == b == [];
      PerformNothing();
      NothingMerged(left);
    } else {
      MergesTake(a, b, left, text);
    }
  }

  lemma NothingMerged(left: bool)
    ensures Consumes([]) == 0 && Merged([], [], left, []) == []
  {
  }

  lemma {:induction false} MergesTake(a: seq<Step>, b: seq<Step>, left: bool, text: seq<Byte>)
    requires Consumes(a) == Consumes(b) == |text| && Lost(Drops(a), Drops(b)) == 0
    requires a != [] && b != [] && !a[0].Put? && !b[0].Put?
    ensures Perform(Transformed(a, b, left), Perform(b, text)) == Merged(a, b, left, text)
    decreases |a| + |b|, 0
  {
    hide Perform, Merged;
    var x, rest, a1, b1 := text[0], text[1..], a[1..], b[1..];
    assert Drops(a)[1..] == Drops(a1) && Drops(b)[1..] == Drops(b1);
    assert !(a[0] == Keep && b[0] == Drop);
    TransformedMerges(a1, b1, left, rest);
    SplitFirst(a);
    SplitFirst(b);
    SplitFirst(text);
    var t, done := Transformed(a1, b1, left), Perform(b1, rest);
    MergedTake(a[0], b[0], a1, b1, left, x, rest);
    if b[0] == Keep { KeepFirst(b1, x, rest); } else { DropFirst(b1, x, rest); }
    if a[0] == Keep { KeepFirst(t, x, done); } else { DropFirst(t, x, done); }
    assert [] + Merged(a1, b1, left, rest) == Merged(a1, b1, left, rest);
  }

  /** Transforming keeps what is inserted. */
  function Inserted(st: seq<Step>): seq<Byte> {
    if st == [] then [] else (if st[0].Put? then [st[0].b] else []) + Inserted(st[1..])
  }

  lemma {:induction false} TransformedInserts(a: seq<Step>, b: seq<Step>, left: bool)
    requires Consumes(a) == Consumes(b)
    ensures Inserted(Transformed(a, b, left)) == Inserted(a)
    decreases |a| + |b|
  {
    hide Inserted;
    if StartsWithPut(a) && (left || !StartsWithPut(b)) {
      TransformedInserts(a[1..], b, left);
      SplitFirst(a);
      InsertedFirst(a[0], a[1..]);
      InsertedFirst(a[0], Transformed(a[1..], b, left));
    } else if StartsWithPut(b) {
      TransformedInserts(a, b[1..], left);
      InsertedFirst(Keep, Transformed(a, b[1..], left));
    } else if a != [] && b != [] {
      TransformedInserts(a[1..], b[1..], left);
      SplitFirst(a);
      InsertedFirst(a[0], a[1..]);
      InsertedFirst(Keep, Transformed(a[1..], b[1..], left));
      InsertedFirst(Drop, Transformed(a[1..], b[1..], left));
    } else {
      NoneInserted(a);
    }
  }

  lemma InsertedFirst(s: Step, st: seq<Step>)
    ensures Inserted([s] + st) == if s.Put? then [s.b] + Inserted(st) else Inserted(st)
  {
    assert ([s] + st)[1..] == st;
  }

  lemma {:induction false} NoneInserted(st: seq<Step>)
    requires Consumes(st) == 0 && !StartsWithPut(st)
    ensures Inserted(st) == Inserted([]) == []
  {
  }

  // ------------------------------------------------------------- convergence

  /** Every inserted byte is a whole character. */
  predicate PlainPuts(st: seq<Step>) {
    forall s :: s in st ==> !(s.Put? && Continuation(s.b))
  }

  /** Applying one operation and then another. */
  function AppliedThen(a: seq<Step>, b: seq<Step>, text: seq<Byte>): Option<seq<Byte>> {
    var once := Applied(a, text);
    if once.Some? then Applied(b, once.value) else None
  }

  /** Both ways around succeed, and with the same text. */
  predicate Converges(a: seq<Step>, b: seq<Step>, text: seq<Byte>) {
    var one, other := AppliedThen(a, Transformed(b, a, false), text), AppliedThen(b, Transformed(a, b, true), text);
    one.Some? && one == other
  }

  lemma {:induction false} PlainResult(st: seq<Step>, text: seq<Byte>)
    requires Consumes(st) == |text| && Plain(text)
    ensures Plain(Perform(st, text)) <==> PlainPuts(st)
  {
    if st == [] {
      PerformNothing();
    } else {
      var s, rest := st[0], st[1..];
      var more := Perform(rest, text[Takes(s)..]);
      PlainResult(rest, text[Takes(s)..]);
      PerformCons(s, rest, text);
      SplitFirst(st);
      hide Perform, Consumes;
      PlainConcat(Made(s, text), more);
      PutsConcat(s, rest);
    }
  }

  lemma PlainConcat(a: seq<Byte>, b: seq<Byte>)
    ensures Plain(a + b) <==> Plain(a) && Plain(b)
  {
    if Plain(a + b) {
      forall x | x in a || x in b ensures !Continuation(x) { assert x in a + b; }
    }
  }

  lemma PutsConcat(s: Step, rest: seq<Step>)
    ensures PlainPuts([s] + rest) <==> !(s.Put? && Continuation(s.b)) && PlainPuts(rest)
  {
    if PlainPuts([s] + rest) {
      assert s in [s] + rest;
      forall t | t in rest ensures !(t.Put? && Continuation(t.b)) { assert t in [s] + rest; }
    }
  }

  /** The convergence property of `transform_pair`: for concurrent operations and any
      document they apply to, it holds if and only if they delete the same bytes and
      insert single-byte characters only. */
  lemma ConvergesIff(a: seq<Step>, b: seq<Step>, text: seq<Byte>)
    requires Consumes(a) == Consumes(b) == |text| && Plain(text)
    ensures Converges(a, b, text) <==> Drops(a) == Drops(b) && PlainPuts(a) && PlainPuts(b)
  {
    TransformedLength(a, b, true);
    TransformedLength(b, a, false);
    NothingLost(Drops(a), Drops(b));
    PlainResult(a, text);
    PlainResult(b, text);
    if Drops(a) == Drops(b) { BothWaysMeet(a, b, text); }
    hide Perform, Consumes, Produces, Transformed, Drops, Lost, Plain, PlainPuts;
  }

  /** The property fails for keeping against deleting the one byte of a document: the
      transformed keeping deletes a byte that is no longer there. */
  lemma KeepAgainstDrop(x: Byte)
    requires !Continuation(x)
    ensures AppliedThen([Keep], Transformed([Drop], [Keep], false), [x]) == Some([])
    ensures AppliedThen([Drop], Transformed([Keep], [Drop], true), [x]) == None
    ensures !Converges([Keep], [Drop], [x])
  {
    assert Transformed([Drop], [Keep], false) == [Drop] && Transformed([Keep], [Drop], true) == [Drop];
    PerformTimes(1, Keep, [x]);
    PerformTimes(1, Drop, [x]);
    assert Times(1, Keep) == [Keep] && Times(1, Drop) == [Drop];
  }

  // ------------------------------------------------- transforming, in operations

  /** The rest of the operations once the first `m` bytes of the first are dealt with. */
  function Cut(ops: seq<Operation>, m: nat): seq<Operation>
    requires ops != [] && !ops[0].Insert? && m <= ops[0].n
  {
    if m == ops[0].n then ops[1..]
    else if ops[0].Retain? then [Retain(ops[0].n - m)] + ops[1..]
    else [Delete(ops[0].n - m)] + ops[1..]
  }

  function Kind(op: Operation): Step {
    if op.Retain? then Keep else Drop
  }

  lemma CutSteps(ops: seq<Operation>, m: nat)
    requires ops != [] && !ops[0].Insert? && m <= ops[0].n && Positive(ops)
    ensures Expand(ops) == Times(m, Kind(ops[0])) + Expand(Cut(ops, m)) && Positive(Cut(ops, m))
  {
    hide Times, Expand, Positive;
    var op, rest := ops[0], ops[1..];
    SplitFirst(ops);
    ExpandCons(op, rest);
    PositiveCut(ops, m);
    if m < op.n {
      var left := if op.Retain? then Retain(op.n - m) else Delete(op.n - m);
      ExpandCons(left, rest);
      StretchSplit(op, left, m);
      hide Kind;
      Grouped(Times(m, Kind(op)), StepsOf(left), Expand(rest));
    }
  }

  lemma PositiveCut(ops: seq<Operation>, m: nat)
    requires ops != [] && !ops[0].Insert? && m <= ops[0].n && Positive(ops)
    ensures Positive(Cut(ops, m))
  {
  }

  lemma StretchSplit(op: Operation, left: Operation, m: nat)
    requires !op.Insert? && m < op.n
    requires left == if op.Retain? then Retain(op.n - m) else Delete(op.n - m)
    ensures StepsOf(op) == Times(m, Kind(op)) + StepsOf(left)
  {
    TimesSplit(m, op.n - m, Kind(op));
  }

  lemma ExpandCons(op: Operation, rest: seq<Operation>)
    ensures Expand([op] + rest) == StepsOf(op) + Expand(rest)
  {
    hide StepsOf;
    assert ([op] + rest)[1..] == rest;
  }

  /** The main loop of `transform`: what is done and what is left make up the whole. */
  ghost predicate Transforming(done: seq<Step>, ops1: seq<Operation>, ops2: seq<Operation>, left: bool,
                               all: seq<Step>) {
    Positive(ops1) && Positive(ops2) && done + Transformed(Expand(ops1), Expand(ops2), left) == all
  }

  lemma NothingTransformed(ops1: seq<Operation>, ops2: seq<Operation>, left: bool)
    requires Positive(ops1) && Positive(ops2)
    ensures Transforming([], ops1, ops2, left, Transformed(Expand(ops1), Expand(ops2), left))
  {
    hide Expand, Transformed, Positive;
    var t := Transformed(Expand(ops1), Expand(ops2), left);
    assert [] + t == t;
  }

  lemma SelfFirst(ops1: seq<Operation>, ops2: seq<Operation>, left: bool, done: seq<Step>, all: seq<Step>)
    requires Transforming(done, ops1, ops2, left, all) && ops1 != [] && ops1[0].Insert?
    requires left || ops2 == [] || !ops2[0].Insert?
    ensures Transforming(done + Puts(ops1[0].s), ops1[1..], ops2, left, all)
  {
    hide Expand, Transformed, Puts;
    var a, b, p := Expand(ops1[1..]), Expand(ops2), Puts(ops1[0].s);
    assert ops1 == [ops1[0]] + ops1[1..];
    ExpandCons(ops1[0], ops1[1..]);
    if !left { NoPutFirst(ops2); }
    SelfInserts(ops1[0].s, a, b, left);
    assert done + (p + Transformed(a, b, left)) == done + p + Transformed(a, b, left);
  }

  lemma OtherFirst(ops1: seq<Operation>, ops2: seq<Operation>, left: bool, done: seq<Step>, all: seq<Step>)
    requires Transforming(done, ops1, ops2, left, all) && ops2 != [] && ops2[0].Insert?
    requires left ==> ops1 == [] || !ops1[0].Insert?
    ensures Transforming(done + Times(|ops2[0].s|, Keep), ops1, ops2[1..], left, all)
  {
    hide Expand, Transformed, Puts, Times;
    var a, b, p := Expand(ops1), Expand(ops2[1..]), Times(|ops2[0].s|, Keep);
    assert ops2 == [ops2[0]] + ops2[1..];
    ExpandCons(ops2[0], ops2[1..]);
    if left { NoPutFirst(ops1); }
    OtherInserts(ops2[0].s, a, b, left);
    assert done + (p + Transformed(a, b, left)) == done + p + Transformed(a, b, left);
  }

  lemma OneExhausted(ops1: seq<Operation>, ops2: seq<Operation>, left: bool, done: seq<Step>, all: seq<Step>)
    requires Transforming(done, ops1, ops2, left, all) && (ops1 == [] || ops2 == [])
    requires (ops1 == [] || !ops1[0].Insert?) && (ops2 == [] || !ops2[0].Insert?)
    ensures done == all
  {
    NoPutFirst(ops1);
    NoPutFirst(ops2);
    assert done + [] == done;
  }

  lemma TakeFirst(ops1: seq<Operation>, ops2: seq<Operation>, left: bool, done: seq<Step>, all: seq<Step>, m: nat)
    requires Transforming(done, ops1, ops2, left, all)
    requires ops1 != [] && ops2 != [] && !ops1[0].Insert? && !ops2[0].Insert? && m == Min(ops1[0].n, ops2[0].n)
    ensures |Cut(ops1, m)| + |Cut(ops2, m)| < |ops1| + |ops2|
    ensures ops1[0].Retain? && ops2[0].Retain? ==>
              Transforming(done + Times(m, Keep), Cut(ops1, m), Cut(ops2, m), left, all)
    ensures ops1[0].Delete? && ops2[0].Delete? ==> Transforming(done, Cut(ops1, m), Cut(ops2, m), left, all)
    ensures ops1[0].Retain? != ops2[0].Retain? ==>
              Transforming(done + Times(m, Drop), Cut(ops1, m), Cut(ops2, m), left, all)
  {
    hide Expand, Transformed, Times, Positive;
    var a, b, p := Expand(Cut(ops1, m)), Expand(Cut(ops2, m)), Outcome(m, Kind(ops1[0]), Kind(ops2[0]));
    CutSteps(ops1, m);
    CutSteps(ops2, m);
    BothTake(m, Kind(ops1[0]), Kind(ops2[0]), a, b, left);
    assert done + (p + Transformed(a, b, left)) == done + p + Transformed(a, b, left);
    assert done + [] == done;
  }

  lemma NoPutFirst(ops: seq<Operation>)
    requires Positive(ops) && (ops == [] || !ops[0].Insert?)
    ensures !StartsWithPut(Expand(ops))
  {
    if ops != [] {
      ExpandNext(ops, 0);
      assert ops[0..] == ops && ops[0] in ops;
      assert Times(ops[0].n, Kind(ops[0]))[0] == Kind(ops[0]);
    }
  }

  lemma {:induction false} SelfInserts(s: seq<Byte>, a: seq<Step>, b: seq<Step>, left: bool)
    requires left || !StartsWithPut(b)
    ensures Transformed(Puts(s) + a, b, left) == Puts(s) + Transformed(a, b, left)
  {
    if s == [] {
      assert [] + a == a && [] + Transformed(a, b, left) == Transformed(a, b, left);
    } else {
      SelfInserts(s[1..], a, b, left);
      SelfPut(s[0], Puts(s[1..]) + a, b, left);
      hide Transformed;
      assert Puts(s) + a == [Put(s[0])] + (Puts(s[1..]) + a);
      var t := Transformed(a, b, left);
      assert [Put(s[0])] + (Puts(s[1..]) + t) == [Put(s[0])] + Puts(s[1..]) + t;
    }
  }

  lemma SelfPut(x: Byte, a: seq<Step>, b: seq<Step>, left: bool)
    requires left || !StartsWithPut(b)
    ensures Transformed([Put(x)] + a, b, left) == [Put(x)] + Transformed(a, b, left)
  {
    assert ([Put(x)] + a)[1..] == a;
  }

  lemma {:induction false} OtherInserts(s: seq<Byte>, a: seq<Step>, b: seq<Step>, left: bool)
    requires left ==> !StartsWithPut(a)
    ensures Transformed(a, Puts(s) + b, left) == Times(|s|, Keep) + Transformed(a, b, left)
  {
    if s == [] {
      assert [] + b == b && [] + Transformed(a, b, left) == Transformed(a, b, left);
    } else {
      OtherInserts(s[1..], a, b, left);
      OtherPut(s[0], a, Puts(s[1..]) + b, left);
      hide Transformed;
      assert Puts(s) + b == [Put(s[0])] + (Puts(s[1..]) + b);
      var n, t := |s| - 1, Transformed(a, b, left);
      assert [Keep] + (Times(n, Keep) + t) == [Keep] + Times(n, Keep) + t;
    }
  }

  lemma OtherPut(x: Byte, a: seq<Step>, b: seq<Step>, left: bool)
    requires left ==> !StartsWithPut(a)
    ensures Transformed(a, [Put(x)] + b, left) == [Keep] + Transformed(a, b, left)
  {
    assert ([Put(x)] + b)[1..] == b;
  }

  /** What comes of `n` bytes that the one side keeps or drops, and so the other. */
  function Outcome(n: nat, x: Step, y: Step): seq<Step> {
    if x == Keep && y == Keep then Times(n, Keep)
    else if x == Drop && y == Drop then []
    else Times(n, Drop)
  }

  lemma {:induction false} BothTake(n: nat, x: Step, y: Step, a: seq<Step>, b: seq<Step>, left: bool)
    requires !x.Put? && !y.Put?
    ensures Transformed(Times(n, x) + a, Times(n, y) + b, left) == Outcome(n, x, y) + Transformed(a, b, left)
  {
    hide Transformed, Outcome, Times;
    var t := Transformed(a, b, left);
    if n == 0 {
      NoneTaken(x, y);
      assert [] + a == a && [] + b == b && [] + t == t;
    } else {
      var m := n - 1;
      BothTake(m, x, y, a, b, left);
      TakeOne(x, y, Times(m, x) + a, Times(m, y) + b, left);
      OutcomeNext(m, x, y);
      TimesFirst(n, x, a);
      TimesFirst(n, y, b);
      assert Outcome(1, x, y) + (Outcome(m, x, y) + t) == Outcome(1, x, y) + Outcome(m, x, y) + t;
    }
  }

  lemma NoneTaken(x: Step, y: Step)
    ensures Times(0, x) == Times(0, y) == Outcome(0, x, y) == []
  {
  }

  lemma TimesFirst(n: nat, x: Step, a: seq<Step>)
    requires n > 0
    ensures Times(n, x) + a == [x] + (Times(n - 1, x) + a)
  {
  }

  lemma TakeOne(x: Step, y: Step, a: seq<Step>, b: seq<Step>, left: bool)
    requires !x.Put? && !y.Put?
    ensures Transformed([x] + a, [y] + b, left) == Outcome(1, x, y) + Transformed(a, b, left)
  {
    var p, q, t := [x] + a, [y] + b, Transformed(a, b, left);
    assert p[1..] == a && q[1..] == b;
    assert Times(1, Keep) == [Keep] && Times(1, Drop) == [Drop];
    assert [] + t == t;
  }

  lemma OutcomeNext(m: nat, x: Step, y: Step)
    ensures Outcome(1, x, y) + Outcome(m, x, y) == Outcome(m + 1, x, y)
  {
    TimesSplit(1, m, Keep);
    TimesSplit(1, m, Drop);
  }

  // -------------------------------------------------------------- composing

  /** `compose`: `a` and then `b` in one. */
  function Composed(a: seq<Step>, b: seq<Step>): seq<Step>
    decreases |a| + |b|
  {
    if a != [] && a[0].Drop? then [Drop] + Composed(a[1..], b)
    else if StartsWithPut(b) then [b[0]] + Composed(a, b[1..])
    else if a == [] || b == [] then []
    else if b[0].Keep? then [a[0]] + Composed(a[1..], b[1..])
    else if a[0].Keep? then [Drop] + Composed(a[1..], b[1..])
    else Composed(a[1..], b[1..])
  }

  lemma {:induction false} ComposedLength(a: seq<Step>, b: seq<Step>)
    requires Produces(a) == Consumes(b)
    ensures Consumes(Composed(a, b)) == Consumes(a) && Produces(Composed(a, b)) == Produces(b)
    decreases |a| + |b|
  {
    var c := Composed(a, b);
    if a != [] && a[0].Drop? {
      ComposedLength(a[1..], b);
      assert c[1..] == Composed(a[1..], b);
    } else if StartsWithPut(b) {
      ComposedLength(a, b[1..]);
      assert c[1..] == Composed(a, b[1..]);
    } else if a != [] && b != [] {
      ComposedLength(a[1..], b[1..]);
      if c != Composed(a[1..], b[1..]) { assert c[1..] == Composed(a[1..], b[1..]); }
    }
  }

  /** One operation after the other has the effect of the composed one. */
  lemma {:induction false} ComposedPerforms(a: seq<Step>, b: seq<Step>, text: seq<Byte>)
    requires Consumes(a) == |text| && Produces(a) == Consumes(b)
    ensures Perform(Composed(a, b), text) == Perform(b, Perform(a, text))
    decreases |a| + |b|
  {
    hide Perform;
    if a == [] && !StartsWithPut(b) {
      assert b == [];
      PerformNothing();
    } else if a != [] && a[0].Drop? {
      var rest, x, t := a[1..], text[0], text[1..];
      ComposedPerforms(rest, b, t);
      SplitFirst(a);
      SplitFirst(text);
      DropFirst(rest, x, t);
      DropFirst(Composed(rest, b), x, t);
    } else if StartsWithPut(b) {
      ComposedPerforms(a, b[1..], text);
      SplitFirst(b);
      PutFirst(b[0].b, Composed(a, b[1..]), text);
      PutFirst(b[0].b, b[1..], Perform(a, text));
    } else if a[0].Keep? {
      ComposedPerforms(a[1..], b[1..], text[1..]);
      ComposeKeep(a, b, text);
    } else {
      ComposedPerforms(a[1..], b[1..], text);
      ComposePut(a, b, text);
    }
  }

  lemma ComposeKeep(a: seq<Step>, b: seq<Step>, text: seq<Byte>)
    requires a != [] && a[0] == Keep && b != [] && !b[0].Put? && text != []
    requires Perform(Composed(a[1..], b[1..]), text[1..]) == Perform(b[1..], Perform(a[1..], text[1..]))
    ensures Perform(Composed(a, b), text) == Perform(b, Perform(a, text))
  {
    var x, t, more := text[0], text[1..], Composed(a[1..], b[1..]);
    assert Composed(a, b) == [if b[0] == Keep then Keep else Drop] + more;
    hide Perform, Composed;
    SplitFirst(a);
    SplitFirst(b);
    SplitFirst(text);
    KeepFirst(a[1..], x, t);
    if b[0] == Keep {
      KeepFirst(more, x, t);
      KeepFirst(b[1..], x, Perform(a[1..], t));
    } else {
      DropFirst(more, x, t);
      DropFirst(b[1..], x, Perform(a[1..], t));
    }
  }

  lemma ComposePut(a: seq<Step>, b: seq<Step>, text: seq<Byte>)
    requires StartsWithPut(a) && b != [] && !b[0].Put?
    requires Perform(Composed(a[1..], b[1..]), text) == Perform(b[1..], Perform(a[1..], text))
    ensures Perform(Composed(a, b), text) == Perform(b, Perform(a, text))
  {
    var p, more := a[0].b, Composed(a[1..], b[1..]);
    assert Composed(a, b) == if b[0] == Keep then [Put(p)] + more else more;
    hide Perform, Composed;
    SplitFirst(a);
    SplitFirst(b);
    PutFirst(p, a[1..], text);
    if b[0] == Keep {
      PutFirst(p, more, text);
      KeepFirst(b[1..], p, Perform(a[1..], text));
    } else {
      DropFirst(b[1..], p, Perform(a[1..], text));
    }
  }

  /** Composing has the same effect as applying in turn if and only if the first
      operation inserts single-byte characters only: applying in turn fails otherwise. */
  lemma ComposeIff(a: seq<Step>, b: seq<Step>, text: seq<Byte>)
    requires Produces(a) == Consumes(b)
    ensures Applied(Composed(a, b), text) == AppliedThen(a, b, text) <==>
            PlainPuts(a) || Applied(a, text) == None
  {
    ComposedLength(a, b);
    if |text| == Consumes(a) && Plain(text) {
      PlainResult(a, text);
      ComposedPerforms(a, b, text);
    }
    hide Perform, Consumes, Produces, Composed, Plain, PlainPuts;
  }

  // --------------------------------------------------- composing, in operations

  predicate StartsWithDrop(st: seq<Step>) {
    st != [] && st[0].Drop?
  }

  /** What a step sequence leaves behind: what it keeps and puts. */
  function Output(st: seq<Step>): seq<Step> {
    if st == [] then []
    else (if st[0].Drop? then [] else [st[0]]) + Output(st[1..])
  }

  predicate Inner(s: Step) {
    s.Put? && Continuation(s.b)
  }

  /** Some operation ends, or an insertion is made, inside an inserted character. */
  predicate Torn(made: seq<Step>, ops: seq<Operation>) {
    ops != [] &&
    var k := Consumes(StepsOf(ops[0]));
    k < |made| && (Inner(made[k]) || Torn(made[k..], ops[1..]))
  }

  /** Only wide characters are torn. */
  lemma {:induction false} TornNeedsWide(made: seq<Step>, ops: seq<Operation>)
    requires Torn(made, ops)
    ensures !PlainPuts(made)
  {
    var k := Consumes(StepsOf(ops[0]));
    if Inner(made[k]) {
      assert made[k] in made;
    } else {
      TornNeedsWide(made[k..], ops[1..]);
      var s :| s in made[k..] && s.Put? && Continuation(s.b);
      assert s in made;
    }
  }

  lemma {:induction false} OutputPuts(st: seq<Step>)
    ensures PlainPuts(Output(st)) <==> PlainPuts(st)
  {
    if st != [] {
      OutputPuts(st[1..]);
      SplitFirst(st);
      PutsConcat(st[0], st[1..]);
      if st[0].Drop? { assert Output(st) == Output(st[1..]); }
      else { PutsConcat(st[0], Output(st[1..])); }
    }
  }

  /** Composing panics only when the first operation inserts wide characters. */
  lemma PanicNeedsWide(st: seq<Step>, ops: seq<Operation>)
    requires PlainPuts(st)
    ensures !Torn(Output(st), ops)
  {
    OutputPuts(st);
    if Torn(Output(st), ops) { TornNeedsWide(Output(st), ops); }
  }

  lemma {:induction false} OutputAfter(p: seq<Step>, a: seq<Step>)
    requires Drop !in p
    ensures Output(p + a) == p + Output(a)
  {
    if p == [] {
      assert p + a == a && p + Output(a) == Output(a);
    } else {
      OutputAfter(p[1..], a);
      assert p[0] in p && (p + a)[1..] == p[1..] + a;
      assert [p[0]] + (p[1..] + Output(a)) == p + Output(a);
    }
  }

  lemma {:induction false} DropsFirst(n: nat, a: seq<Step>, b: seq<Step>)
    ensures Output(Times(n, Drop) + a) == Output(a)
    ensures Composed(Times(n, Drop) + a, b) == Times(n, Drop) + Composed(a, b)
  {
    if n == 0 {
      assert [] + a == a && [] + Composed(a, b) == Composed(a, b);
    } else {
      DropsFirst(n - 1, a, b);
      TimesFirst(n, Drop, a);
      TimesFirst(n, Drop, Composed(a, b));
      var rest := Times(n - 1, Drop) + a;
      assert ([Drop] + rest)[1..] == rest;
    }
  }

  lemma {:induction false} PutsSecond(s: seq<Byte>, a: seq<Step>, b: seq<Step>)
    requires !StartsWithDrop(a)
    ensures Composed(a, Puts(s) + b) == Puts(s) + Composed(a, b)
  {
    var c := Composed(a, b);
    if s == [] {
      assert [] + b == b && [] + c == c;
    } else {
      PutsSecond(s[1..], a, b);
      PutSecond(s[0], a, Puts(s[1..]) + b);
      hide Composed;
      assert Puts(s) + b == [Put(s[0])] + (Puts(s[1..]) + b);
      assert [Put(s[0])] + (Puts(s[1..]) + c) == [Put(s[0])] + Puts(s[1..]) + c;
    }
  }

  lemma PutSecond(x: Byte, a: seq<Step>, b: seq<Step>)
    requires !StartsWithDrop(a)
    ensures Composed(a, [Put(x)] + b) == [Put(x)] + Composed(a, b)
  {
    assert ([Put(x)] + b)[1..] == b;
  }

  /** What is left of `p` when the second operation keeps, or drops, all of it. */
  function Met(p: seq<Step>, y: Step): seq<Step> {
    if y == Keep then p else Times(Consumes(p), Drop)
  }

  lemma {:induction false} MeetAll(p: seq<Step>, y: Step, a: seq<Step>, b: seq<Step>)
    requires Drop !in p && !y.Put?
    ensures Composed(p + a, Times(|p|, y) + b) == Met(p, y) + Composed(a, b)
  {
    hide Composed, Met, Times;
    var c := Composed(a, b);
    if p == [] {
      assert Met(p, y) == [] && Times(0, y) == [] by { MetNothing(y); }
      assert p + a == a && [] + b == b && [] + c == c;
    } else {
      var m := |p| - 1;
      MeetAll(p[1..], y, a, b);
      SplitFirst(p);
      assert p[0] in p && p + a == [p[0]] + (p[1..] + a);
      TimesFirst(|p|, y, b);
      MeetOne(p[0], y, p[1..] + a, Times(m, y) + b);
      MetNext(p[0], p[1..], y);
      assert Met([p[0]], y) + (Met(p[1..], y) + c) == Met([p[0]], y) + Met(p[1..], y) + c;
    }
  }

  lemma MetNothing(y: Step)
    ensures Met([], y) == [] && Times(0, y) == []
  {
  }

  lemma MeetOne(x: Step, y: Step, a: seq<Step>, b: seq<Step>)
    requires x != Drop && !y.Put?
    ensures Composed([x] + a, [y] + b) == Met([x], y) + Composed(a, b)
  {
    assert ([x] + a)[1..] == a && ([y] + b)[1..] == b;
    assert Consumes([x][1..]) == 0;
    assert Times(1, Drop) == [Drop] && Times(0, Drop) == [];
    assert [] + Composed(a, b) == Composed(a, b);
  }

  lemma MetNext(x: Step, p: seq<Step>, y: Step)
    ensures Met([x] + p, y) == Met([x], y) + Met(p, y)
  {
    CountConcat([x], p);
    TimesSplit(Consumes([x]), Consumes(p), Drop);
  }

  /** The main loop of `compose`: what is done and what is left make up the whole. */
  ghost predicate Composing(done: seq<Step>, ops1: seq<Operation>, ops2: seq<Operation>, all: seq<Step>, torn: bool) {
    && Positive(ops1) && Positive(ops2) && NoEmptyInsert(ops1)
    && done + Composed(Expand(ops1), Expand(ops2)) == all && torn == Torn(Output(Expand(ops1)), ops2)
  }

  lemma NothingComposed(ops1: seq<Operation>, ops2: seq<Operation>)
    requires Positive(ops1) && Positive(ops2) && NoEmptyInsert(ops1)
    ensures Composing([], ops1, ops2, Composed(Expand(ops1), Expand(ops2)), Torn(Output(Expand(ops1)), ops2))
  {
    hide Expand, Composed, Torn, Positive, NoEmptyInsert;
    var c := Composed(Expand(ops1), Expand(ops2));
    assert [] + c == c;
  }

  lemma DeleteFirst(ops1: seq<Operation>, ops2: seq<Operation>, done: seq<Step>, all: seq<Step>, torn: bool)
    requires Composing(done, ops1, ops2, all, torn) && ops1 != [] && ops1[0].Delete?
    ensures Composing(done + Times(ops1[0].n, Drop), ops1[1..], ops2, all, torn)
  {
    hide Expand, Composed, Torn, Times, Output;
    var a, b, p := Expand(ops1[1..]), Expand(ops2), Times(ops1[0].n, Drop);
    SplitFirst(ops1);
    ExpandCons(ops1[0], ops1[1..]);
    DropsFirst(ops1[0].n, a, b);
    assert done + (p + Composed(a, b)) == done + p + Composed(a, b);
  }

  lemma InsertFirst(ops1: seq<Operation>, ops2: seq<Operation>, done: seq<Step>, all: seq<Step>, torn: bool)
    requires Composing(done, ops1, ops2, all, torn) && ops2 != [] && ops2[0].Insert?
    requires ops1 == [] || !ops1[0].Delete?
    ensures Composing(done + Puts(ops2[0].s), ops1, ops2[1..], all, torn)
  {
    hide Expand, Composed, Torn, Puts, Output, Inner;
    var a, b, p := Expand(ops1), Expand(ops2[1..]), Puts(ops2[0].s);
    SplitFirst(ops2);
    ExpandCons(ops2[0], ops2[1..]);
    NoDropFirst(ops1);
    PutsSecond(ops2[0].s, a, b);
    StartsWhole(ops1);
    TornNext(Output(a), ops2);
    CountSteps(ops2[0]);
    assert Output(a)[0..] == Output(a);
    TornEmpty(ops2[1..]);
    assert done + (p + Composed(a, b)) == done + p + Composed(a, b);
  }

  lemma TornNext(made: seq<Step>, ops: seq<Operation>)
    requires ops != []
    ensures var k := Consumes(StepsOf(ops[0]));
            Torn(made, ops) <==> k < |made| && (Inner(made[k]) || Torn(made[k..], ops[1..]))
  {
  }

  lemma TornEmpty(ops: seq<Operation>)
    ensures !Torn([], ops)
  {
  }

  lemma NoDropFirst(ops: seq<Operation>)
    requires Positive(ops) && NoEmptyInsert(ops) && (ops == [] || !ops[0].Delete?)
    ensures !StartsWithDrop(Expand(ops))
  {
    if ops != [] { assert ops[0] in ops && StepsOf(ops[0])[0] != Drop; }
  }

  /** What an operation leaves behind starts with a whole character. */
  lemma {:induction false} StartsWhole(ops: seq<Operation>)
    requires NoEmptyInsert(ops)
    ensures var o := Output(Expand(ops)); o == [] || !Inner(o[0])
  {
    if ops != [] {
      var op, rest := ops[0], ops[1..];
      SplitFirst(ops);
      StartsWhole(rest);
      hide Expand, Output;
      ExpandCons(op, rest);
      assert op in ops;
      if op.Delete? {
        DropsFirst(op.n, Expand(rest), []);
      } else {
        NothingDropped(op);
        OutputAfter(StepsOf(op), Expand(rest));
      }
    }
  }

  lemma NothingDropped(op: Operation)
    requires !op.Delete?
    ensures Drop !in StepsOf(op)
    ensures StepsOf(op) != [] ==> !Inner(StepsOf(op)[0])
  {
    match op
    case Retain(n) => TimesOnly(n, Keep);
    case Insert(s) => PutsAre(s);
  }

  lemma {:induction false} TimesOnly(n: nat, s: Step)
    ensures forall k :: 0 <= k < n ==> Times(n, s)[k] == s
  {
    if n > 0 { TimesOnly(n - 1, s); }
  }

  lemma {:induction false} PutsAre(s: seq<Byte>)
    ensures forall k :: 0 <= k < |s| ==> Puts(s)[k] == Put(s[k])
  {
    if s != [] { PutsAre(s[1..]); }
  }

  /** The rest of the operations once the first `m` bytes of the leading insertion are dealt with. */
  function CutInsert(ops: seq<Operation>, m: nat): seq<Operation>
    requires ops != [] && ops[0].Insert? && m <= |ops[0].s|
    requires m < |ops[0].s| ==> !Continuation(ops[0].s[m])
  {
    if m == |ops[0].s| then ops[1..] else [Insert(ops[0].s[m..])] + ops[1..]
  }

  lemma CutInsertSteps(ops: seq<Operation>, m: nat)
    requires ops != [] && ops[0].Insert? && m <= |ops[0].s| && Positive(ops) && NoEmptyInsert(ops)
    requires m < |ops[0].s| ==> !Continuation(ops[0].s[m])
    ensures Expand(ops) == Puts(ops[0].s[..m]) + Expand(CutInsert(ops, m))
    ensures Positive(CutInsert(ops, m)) && NoEmptyInsert(CutInsert(ops, m))
  {
    hide Puts, Expand;
    var s, rest := ops[0].s, ops[1..];
    SplitFirst(ops);
    ExpandCons(ops[0], rest);
    assert s == s[..m] + s[m..];
    PutsSplit(s[..m], s[m..]);
    if m < |s| {
      ExpandCons(Insert(s[m..]), rest);
      var p, q := Puts(s[..m]), Puts(s[m..]);
      assert p + (q + Expand(rest)) == p + q + Expand(rest);
    }
  }

  /** An operation of the second side is worked off against as many bytes of the first. */
  lemma TornMeets(p: seq<Step>, made: seq<Step>, ops: seq<Operation>)
    requires ops != [] && !ops[0].Insert? && |p| <= ops[0].n
    requires |p| == ops[0].n ==> made == [] || !Inner(made[0])
    ensures Torn(p + made, ops) <==> Torn(made, Cut(ops, |p|))
  {
    hide Inner, StepsOf, Consumes, Torn, Cut;
    CutAt(ops, |p|);
    CountSteps(ops[0]);
    TornNext(p + made, ops);
    if |p| == ops[0].n {
      TornEmpty(ops[1..]);
      if made != [] { TornFrom(p, made, |p|); }
    } else {
      TornInside(p, made, ops, Cut(ops, |p|));
    }
  }

  lemma CutAt(ops: seq<Operation>, m: nat)
    requires ops != [] && !ops[0].Insert? && m <= ops[0].n
    ensures var cut := Cut(ops, m);
            if m == ops[0].n then cut == ops[1..]
            else cut != [] && cut[1..] == ops[1..] && !cut[0].Insert? && cut[0].n == ops[0].n - m
  {
  }

  lemma TornInside(p: seq<Step>, made: seq<Step>, ops: seq<Operation>, cut: seq<Operation>)
    requires ops != [] && !ops[0].Insert? && |p| < ops[0].n
    requires cut != [] && cut[1..] == ops[1..] && !cut[0].Insert? && cut[0].n == ops[0].n - |p|
    ensures Torn(p + made, ops) <==> Torn(made, cut)
  {
    hide Inner, StepsOf, Consumes, Torn;
    var n := ops[0].n;
    CountSteps(ops[0]);
    CountSteps(cut[0]);
    TornNext(p + made, ops);
    TornNext(made, cut);
    if n < |p| + |made| { TornFrom(p, made, n); }
  }

  lemma TornFrom<T>(p: seq<T>, made: seq<T>, n: nat)
    requires |p| <= n < |p| + |made|
    ensures (p + made)[n] == made[n - |p|] && (p + made)[n..] == made[n - |p|..]
  {
  }

  lemma RetainMeets(ops1: seq<Operation>, ops2: seq<Operation>, done: seq<Step>, all: seq<Step>, torn: bool, m: nat)
    requires Composing(done, ops1, ops2, all, torn)
    requires ops1 != [] && ops2 != [] && ops1[0].Retain? && !ops2[0].Insert? && m == Min(ops1[0].n, ops2[0].n)
    ensures |Cut(ops1, m)| + |Cut(ops2, m)| < |ops1| + |ops2|
    ensures Composing(done + Times(m, Kind(ops2[0])), Cut(ops1, m), Cut(ops2, m), all, torn)
  {
    hide Expand, Composed, Torn, Times, Output, Positive, NoEmptyInsert;
    var p := Times(m, Keep);
    CutSteps(ops1, m);
    CutPlain(ops1, m);
    CountTimes(m, Keep);
    NothingDropped(Retain(m));
    StartsWhole(Cut(ops1, m));
    Meets(p, Cut(ops1, m), ops1, ops2, done, all, torn);
  }

  lemma CutPlain(ops: seq<Operation>, m: nat)
    requires ops != [] && !ops[0].Insert? && m <= ops[0].n && NoEmptyInsert(ops)
    ensures NoEmptyInsert(Cut(ops, m))
  {
  }

  lemma InsertMeets(ops1: seq<Operation>, ops2: seq<Operation>, done: seq<Step>, all: seq<Step>, torn: bool, m: nat)
    requires Composing(done, ops1, ops2, all, torn)
    requires ops1 != [] && ops2 != [] && ops1[0].Insert? && !ops2[0].Insert? && m == Min(|ops1[0].s|, ops2[0].n)
    requires m < |ops1[0].s| ==> !Continuation(ops1[0].s[m])
    ensures |CutInsert(ops1, m)| + |Cut(ops2, m)| < |ops1| + |ops2|
    ensures Composing(done + (if ops2[0].Retain? then Puts(ops1[0].s[..m]) else []),
                      CutInsert(ops1, m), Cut(ops2, m), all, torn)
  {
    hide Expand, Composed, Torn, Puts, Output, Positive, NoEmptyInsert;
    var p := Puts(ops1[0].s[..m]);
    CutInsertSteps(ops1, m);
    CountPuts(ops1[0].s[..m]);
    NothingDropped(Insert(Prefix(ops1[0].s, m)));
    StartsWhole(CutInsert(ops1, m));
    Meets(p, CutInsert(ops1, m), ops1, ops2, done, all, torn);
  }

  function Prefix(s: Text, m: nat): (r: Text)
    requires m <= |s|
    ensures r == s[..m]
  {
    if m == 0 then [] else s[..m]
  }

  lemma Meets(p: seq<Step>, rest: seq<Operation>, ops1: seq<Operation>, ops2: seq<Operation>, done: seq<Step>,
              all: seq<Step>, torn: bool)
    requires Composing(done, ops1, ops2, all, torn) && Expand(ops1) == p + Expand(rest) && Drop !in p
    requires Positive(rest) && NoEmptyInsert(rest)
    requires ops2 != [] && !ops2[0].Insert? && |p| <= ops2[0].n
    requires var o := Output(Expand(rest)); o == [] || !Inner(o[0])
    ensures Composing(done + Met(p, Kind(ops2[0])), rest, Cut(ops2, |p|), all, torn)
  {
    hide Expand, Composed, Torn, Output, Positive, NoEmptyInsert, Met, Inner, Times;
    var y, cut := Kind(ops2[0]), Cut(ops2, |p|);
    var a, b := Expand(rest), Expand(cut);
    CutSteps(ops2, |p|);
    MeetAll(p, y, a, b);
    OutputAfter(p, a);
    TornMeets(p, Output(a), ops2);
    assert done + (Met(p, y) + Composed(a, b)) == done + Met(p, y) + Composed(a, b);
  }

  /** Here the program would cut a string inside a character. */
  lemma CharacterTorn(ops1: seq<Operation>, ops2: seq<Operation>, done: seq<Step>, all: seq<Step>, torn: bool)
    requires Composing(done, ops1, ops2, all, torn)
    requires ops1 != [] && ops2 != [] && ops1[0].Insert? && !ops2[0].Insert?
    requires ops2[0].n < |ops1[0].s| && Continuation(ops1[0].s[ops2[0].n])
    ensures torn
  {
    hide Expand, Composed, Torn, Output, Positive, NoEmptyInsert, StepsOf;
    var op, rest := ops1[0], ops1[1..];
    SplitFirst(ops1);
    ExpandCons(op, rest);
    NothingDropped(op);
    OutputAfter(StepsOf(op), Expand(rest));
    InsertSteps(op.s);
    CountSteps(ops2[0]);
    TornNext(Output(Expand(ops1)), ops2);
  }

  lemma InsertSteps(s: Text)
    ensures StepsOf(Insert(s)) == Puts(s)
    ensures forall k :: 0 <= k < |s| ==> Puts(s)[k] == Put(s[k])
  {
    PutsAre(s);
  }

  lemma ComposeEnds(ops1: seq<Operation>, ops2: seq<Operation>, done: seq<Step>, all: seq<Step>, torn: bool)
    requires Composing(done, ops1, ops2, all, torn) && (ops1 == [] || ops2 == [])
    requires (ops1 == [] || !ops1[0].Delete?) && (ops2 == [] || !ops2[0].Insert?)
    ensures done == all && !torn
  {
    NoDropFirst(ops1);
    NoPutFirst(ops2);
    TornEmpty(ops2);
    assert done + [] == done;
  }

  // --------------------------------------------------------------- inverting

  function Undone(s: Step): seq<Step> {
    match s
    case Keep => [Keep]
    case Drop => []
    case Put(_) => [Drop]
  }

  /** `invert`: what was deleted cannot be brought back. */
  function Inverse(st: seq<Step>): seq<Step> {
    if st == [] then []
    else Undone(st[0]) + Inverse(st[1..])
  }

  lemma {:induction false} InverseLength(st: seq<Step>)
    ensures Consumes(Inverse(st)) == Produces(st)
    ensures Produces(Inverse(st)) <= Consumes(st)
    ensures Produces(Inverse(st)) == Consumes(st) <==> Drop !in st
  {
    if st != [] {
      InverseLength(st[1..]);
      SplitFirst(st);
      assert Drop in st <==> st[0] == Drop || Drop in st[1..];
      if st[0] != Drop { assert Inverse(st)[1..] == Inverse(st[1..]); }
      else { assert Inverse(st) == Inverse(st[1..]); }
    }
  }

  /** The bytes of a document that an operation keeps. */
  function Survivors(st: seq<Step>, text: seq<Byte>): seq<Byte> {
    if st == [] || text == [] then []
    else if st[0].Put? then Survivors(st[1..], text)
    else (if st[0].Keep? then [text[0]] else []) + Survivors(st[1..], text[1..])
  }

  lemma {:induction false} AllSurvive(st: seq<Step>, text: seq<Byte>)
    requires Consumes(st) == |text|
    ensures Drop !in st ==> Survivors(st, text) == text
  {
    if st != [] && text != [] && Drop !in st {
      SplitFirst(st);
      assert st[0] in st && Drop !in st[1..];
      AllSurvive(st[1..], if st[0].Put? then text else text[1..]);
      SplitFirst(text);
    }
  }

  /** What is deleted is lost, all else is brought back. */
  lemma {:induction false} InversePerforms(st: seq<Step>, text: seq<Byte>)
    requires Consumes(st) == |text|
    ensures Perform(Inverse(st), Perform(st, text)) == Survivors(st, text)
  {
    hide Perform;
    if st == [] {
      PerformNothing();
    } else {
      SplitFirst(st);
      if st[0] == Keep {
        InversePerforms(st[1..], text[1..]);
        SplitFirst(text);
        KeepFirst(st[1..], text[0], text[1..]);
        KeepFirst(Inverse(st[1..]), text[0], Perform(st[1..], text[1..]));
      } else if st[0] == Drop {
        InversePerforms(st[1..], text[1..]);
        SplitFirst(text);
        DropFirst(st[1..], text[0], text[1..]);
        assert Inverse(st) == Inverse(st[1..]);
        assert [] + Survivors(st[1..], text[1..]) == Survivors(st[1..], text[1..]);
      } else {
        InversePerforms(st[1..], text);
        PutFirst(st[0].b, st[1..], text);
        DropFirst(Inverse(st[1..]), st[0].b, Perform(st[1..], text));
        if text == [] { NoneSurvive(st[1..]); }
      }
    }
  }

  lemma NoneSurvive(st: seq<Step>)
    ensures Survivors(st, []) == []
  {
  }

  /** Inverting undoes an operation, on any document it applies to, if and only if it
      deletes nothing and inserts single-byte characters only. */
  lemma InvertUndoesIff(st: seq<Step>, text: seq<Byte>)
    requires Consumes(st) == |text| && Plain(text)
    ensures AppliedThen(st, Inverse(st), text) == Some(text) <==> Drop !in st && PlainPuts(st)
  {
    InverseLength(st);
    PlainResult(st, text);
    InversePerforms(st, text);
    AllSurvive(st, text);
    hide Perform, Consumes, Produces, Inverse, Plain, PlainPuts, Survivors;
  }

  // --------------------------------------------------- inverting, in operations

  /** The loop of `invert`, from the back, once the operations `ops` are dealt with. */
  ghost predicate Inverting(made: seq<Operation>, ops: seq<Operation>) {
    && Expand(made) == Inverse(Expand(ops))
    && |made| == |ops| && (forall k :: 0 <= k < |ops| ==> made[k] == Inverted(ops[k]))
    && (Positive(ops) && NoEmptyInsert(ops) ==> Positive(made) && (NoEmptyInsert(made) || Drop in Expand(ops)))
  }

  lemma NothingInverted()
    ensures Inverting([], [])
  {
  }

  function Inverted(op: Operation): Operation {
    match op
    case Retain(n) => Retain(n)
    case Insert(s) => Delete(|s|)
    case Delete(_) => Insert([])
  }

  lemma InvertNext(made: seq<Operation>, ops: seq<Operation>, i: nat)
    requires i < |ops| && Inverting(made, ops[i + 1..])
    ensures Inverting([Inverted(ops[i])] + made, ops[i..])
  {
    hide Expand, Inverse, StepsOf;
    var op, rest := ops[i], Expand(ops[i + 1..]);
    ExpandNext(ops, i);
    ExpandCons(Inverted(op), made);
    InverseConcat(StepsOf(op), rest);
    InvertedSteps(op);
    assert ops[i..] == [op] + ops[i + 1..];
    if op.Delete? && op.n > 0 { assert StepsOf(op)[0] == Drop by { CountSteps(op); StepsOfDelete(op.n); } }
  }

  lemma StepsOfDelete(n: nat)
    requires n > 0
    ensures StepsOf(Delete(n)) != [] && StepsOf(Delete(n))[0] == Drop
  {
  }

  lemma {:induction false} InverseConcat(a: seq<Step>, b: seq<Step>)
    ensures Inverse(a + b) == Inverse(a) + Inverse(b)
  {
    hide Undone;
    if a == [] {
      assert a + b == b && [] + Inverse(b) == Inverse(b);
    } else {
      InverseConcat(a[1..], b);
      assert (a + b)[1..] == a[1..] + b;
      var x := Undone(a[0]);
      assert x + (Inverse(a[1..]) + Inverse(b)) == x + Inverse(a[1..]) + Inverse(b);
    }
  }

  lemma InvertedSteps(op: Operation)
    ensures Inverse(StepsOf(op)) == StepsOf(Inverted(op))
  {
    match op
    case Retain(n) => InverseTimes(n, Keep);
    case Insert(s) => InversePuts(s);
    case Delete(n) => InverseTimes(n, Drop);
  }

  lemma {:induction false} InverseTimes(n: nat, s: Step)
    requires !s.Put?
    ensures Inverse(Times(n, s)) == if s == Keep then Times(n, Keep) else []
  {
    if n > 0 {
      InverseTimes(n - 1, s);
      assert Times(n, s)[1..] == Times(n - 1, s);
    }
  }

  lemma {:induction false} InversePuts(s: seq<Byte>)
    ensures Inverse(Puts(s)) == Times(|s|, Drop)
  {
    if s != [] {
      InversePuts(s[1..]);
      assert Puts(s)[1..] == Puts(s[1..]);
    }
  }

  lemma InvertEnds(made: seq<Operation>, ops: seq<Operation>)
    requires Inverting(made, ops)
    ensures Expand(made) == Inverse(Expand(ops))
    ensures Consumes(Expand(made)) == Produces(Expand(ops))
    ensures Positive(ops) && NoEmptyInsert(ops) ==>
              && Positive(made) && (Alternating(ops) ==> Alternating(made))
              && (NoEmptyInsert(made) && Produces(Expand(made)) == Consumes(Expand(ops)) <==> Drop !in Expand(ops))
  {
    InverseLength(Expand(ops));
    hide Inverse, Consumes, Produces, Expand;
  }
}
