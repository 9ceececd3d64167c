/** The in-place tokenizer of the debug shell: cmdParse in app/debug_shell.c. */
module Tokenizer {
  import opened Bits
  import opened CStrings
  import opened Wrappers

  const TAB: Byte := 0x09
  const SPACE: Byte := 0x20
  const DOUBLE: Byte := 0x22
  const SINGLE: Byte := 0x27

  const COMMAND_SIZE := 127
  const MAXARGS := 32

  predicate IsQuote(c: Byte) { c == DOUBLE || c == SINGLE }
  predicate IsDelimiter(c: Byte) { c == SPACE || c == TAB }

  /** The memory after the scan and the offsets stored in args, or where a quote had no match. */
  datatype Outcome = Parsed(line: seq<Byte>, args: seq<nat>) | Unmatched(line: seq<Byte>, args: seq<nat>)

  /** The scan for a closing quote, which stops at `len`. */
  function CloseAt(line: seq<Byte>, k: nat, len: nat, q: Byte): (kk: nat)
    requires len <= |line|
    ensures k <= kk && (kk <= len || kk == k)
    decreases len - k
  {
    if k < len && line[k] != q then CloseAt(line, k + 1, len, q) else k
  }

  /** How far a quote may be looked for. As written the length is taken again at every quote,
      after terminators have been planted; repaired, it is the length of the whole line. */
  datatype Limit = AsWritten | Repaired(len: nat)

  function QuoteLimit(line: seq<Byte>, limit: Limit): nat
    requires Terminated(line, 0)
  {
    match limit case AsWritten => StrEnd(line, 0) case Repaired(n) => n
  }

  predicate Sound(line: seq<Byte>, end: nat, limit: Limit)
  {
    end + 1 < |line| && line[end] == NUL && (limit.Repaired? ==> limit.len <= end)
  }

  /** The scan from position jj; `start` is where the pending word began, or -1. `end` is where
      the line's own terminator is, `whole` the scan's bound. */
  function Scan(line: seq<Byte>, jj: nat, whole: nat, end: nat, start: int, args: seq<nat>, limit: Limit): (o: Outcome)
    requires Sound(line, end, limit) && whole <= end && jj <= end + 1
    ensures |o.line| == |line|
    decreases end + 1 - jj
  {
    if jj >= whole then
      if start >= 0 then Parsed(line[jj := NUL], args + [start as nat]) else Parsed(line, args)
    else
      var c := line[jj];
      if IsQuote(c) then
        var kk := CloseAt(line, jj + 1, QuoteLimit(line, limit), c);
        if line[kk] != c then Unmatched(line, args)
        else Scan(line[kk := NUL], kk + 2, whole, end, start, args + [jj + 1], limit)
      else if IsDelimiter(c) then
        if start >= 0 then Scan(line[jj := NUL], jj + 1, whole, end, -1, args + [start as nat], limit)
        else Scan(line, jj + 1, whole, end, -1, args, limit)
      else Scan(line, jj + 1, whole, end, if start < 0 then jj else start, args, limit)
  }

  /** The bound of the scan: a line of exactly 127 characters loses its last one. */
  function WholeLength(n: nat): nat { if n == COMMAND_SIZE then COMMAND_SIZE - 1 else n }

  /** The tokenizer on a line whose terminator is at `end`. */
  function Tokenize(line: seq<Byte>, limit: Limit): Outcome
    requires Terminated(line, 0) && StrEnd(line, 0) + 1 < |line|
    requires limit.Repaired? ==> limit.len <= StrEnd(line, 0)
  {
    var end := StrEnd(line, 0);
    Scan(line, 0, WholeLength(end), end, -1, [], limit)
  }

  // ---- lines made of arguments ----

  datatype Item = Word(text: seq<Byte>) | Quoted(quote: Byte, text: seq<Byte>)

  predicate Plain(c: Byte) { c != NUL && !IsQuote(c) && !IsDelimiter(c) }

  predicate GoodItem(i: Item)
  {
    match i
    case Word(t) => t != [] && forall k :: 0 <= k < |t| ==> Plain(t[k])
    case Quoted(q, t) => IsQuote(q) && NUL !in t && q !in t
  }

  predicate IsGap(g: seq<Byte>) { forall k :: 0 <= k < |g| ==> IsDelimiter(g[k]) }

  function ItemBytes(i: Item): seq<Byte>
  {
    match i case Word(t) => t case Quoted(q, t) => [q] + t + [q]
  }

  /** An argument and the delimiters before it. */
  datatype Spaced = Spaced(gap: seq<Byte>, item: Item)

  function Render(items: seq<Spaced>, tail: seq<Byte>): seq<Byte>
  {
    if items == [] then tail
    else items[0].gap + ItemBytes(items[0].item) + Render(items[1..], tail)
  }

  /** Arguments are separated; the first one may start the line. */
  predicate GoodLine(items: seq<Spaced>, tail: seq<Byte>)
  {
    && IsGap(tail)
    && (forall k :: 0 <= k < |items| ==> GoodItem(items[k].item) && IsGap(items[k].gap))
    && (forall k :: 1 <= k < |items| ==> items[k].gap != [])
  }

  /** Memory holds `text` and its terminator at offset `at`. */
  predicate HoldsText(line: seq<Byte>, at: nat, text: seq<Byte>)
  {
    at + |text| < |line| && line[at..at + |text|] == text && line[at + |text|] == NUL
  }

  /** A quoted argument that is not empty. */
  predicate Loaded(s: Spaced) { s.item.Quoted? && s.item.text != [] }

  // ---- how the scan crosses each piece ----

  lemma {:induction false} CrossGap(line: seq<Byte>, jj: nat, n: nat, whole: nat, end: nat, args: seq<nat>, limit: Limit)
    requires Sound(line, end, limit) && whole <= end && jj + n <= whole
    requires IsGap(line[jj..jj + n])
    ensures Scan(line, jj, whole, end, -1, args, limit) == Scan(line, jj + n, whole, end, -1, args, limit)
    decreases n
  {
    if n > 0 {
      assert line[jj] == line[jj..jj + n][0];
      assert line[jj + 1..jj + n] == line[jj..jj + n][1..];
      CrossGap(line, jj + 1, n - 1, whole, end, args, limit);
    }
  }

  lemma {:induction false} CrossWord(line: seq<Byte>, jj: nat, n: nat, whole: nat, end: nat, start: nat, args: seq<nat>, limit: Limit)
    requires Sound(line, end, limit) && whole <= end && jj + n <= whole
    requires forall k :: jj <= k < jj + n ==> Plain(line[k])
    ensures Scan(line, jj, whole, end, start, args, limit) == Scan(line, jj + n, whole, end, start, args, limit)
    decreases n
  {
    if n > 0 { CrossWord(line, jj + 1, n - 1, whole, end, start, args, limit); }
  }

  lemma {:induction false} FindClose(line: seq<Byte>, k: nat, len: nat, q: Byte, n: nat)
    requires k + n < len <= |line| && line[k + n] == q
    requires forall i :: k <= i < k + n ==> line[i] != q
    ensures CloseAt(line, k, len, q) == k + n
    decreases n
  {
    if n > 0 { FindClose(line, k + 1, len, q, n - 1); }
  }

  /** One argument: from its first character to the point where the next one may start. */
  lemma ScanWordItem(line: seq<Byte>, jj: nat, t: seq<Byte>, whole: nat, end: nat, args: seq<nat>, limit: Limit)
    requires Sound(line, end, limit) && whole <= end && jj + |t| <= whole
    requires GoodItem(Word(t)) && line[jj..jj + |t|] == t
    requires jj + |t| < whole ==> IsDelimiter(line[jj + |t|])
    ensures Scan(line, jj, whole, end, -1, args, limit) ==
            if jj + |t| < whole then Scan(line[jj + |t| := NUL], jj + |t| + 1, whole, end, -1, args + [jj], limit)
            else Parsed(line[jj + |t| := NUL], args + [jj])
  {
    forall k | jj <= k < jj + |t| ensures Plain(line[k]) { assert line[k] == t[k - jj]; }
    CrossWord(line, jj + 1, |t| - 1, whole, end, jj, args, limit);
  }

  lemma ScanQuotedItem(line: seq<Byte>, jj: nat, q: Byte, t: seq<Byte>, whole: nat, end: nat, args: seq<nat>, limit: Limit)
    requires Sound(line, end, limit) && jj < whole <= end && jj + |t| + 2 <= end
    requires GoodItem(Quoted(q, t)) && line[jj] == q && line[jj + 1..jj + 1 + |t|] == t && line[jj + 1 + |t|] == q
    requires QuoteLimit(line, limit) <= jj + 1 || QuoteLimit(line, limit) > jj + 1 + |t|
    ensures Scan(line, jj, whole, end, -1, args, limit) ==
            if t == [] || QuoteLimit(line, limit) > jj + 1 + |t|
            then Scan(line[jj + 1 + |t| := NUL], jj + |t| + 3, whole, end, -1, args + [jj + 1], limit)
            else Unmatched(line, args)
  {
    var len := QuoteLimit(line, limit);
    forall k | jj + 1 <= k < jj + 1 + |t| ensures line[k] != q { assert line[k] == t[k - (jj + 1)]; }
    if len > jj + 1 + |t| { FindClose(line, jj + 1, len, q, |t|); }
  }

  /** What is left of the line once its first delimiter has been swallowed. */
  function ShrinkItems(items: seq<Spaced>): (s: seq<Spaced>)
    ensures |s| == |items|
  {
    if items == [] || items[0].gap == [] then items
    else [Spaced(items[0].gap[1..], items[0].item)] + items[1..]
  }

  function ShrinkTail(items: seq<Spaced>, tail: seq<Byte>): seq<Byte>
  {
    if items == [] && tail != [] then tail[1..] else tail
  }

  lemma RenderFirst(items: seq<Spaced>, tail: seq<Byte>)
    requires items != []
    ensures Render(items, tail) == items[0].gap + ItemBytes(items[0].item) + Render(items[1..], tail)
  {
  }

  lemma ShrinkGood(items: seq<Spaced>, tail: seq<Byte>)
    requires GoodLine(items, tail) && (items != [] ==> items[0].gap != [])
    ensures GoodLine(ShrinkItems(items), ShrinkTail(items, tail))
    ensures items != [] ==> IsDelimiter(items[0].gap[0])
  {
  }

  lemma ShrinkRenders(items: seq<Spaced>, tail: seq<Byte>)
    requires GoodLine(items, tail) && (items != [] ==> items[0].gap != [])
    ensures GoodLine(ShrinkItems(items), ShrinkTail(items, tail))
    ensures var r := Render(items, tail);
      if items == [] && tail == [] then r == []
      else r != [] && IsDelimiter(r[0]) && Render(ShrinkItems(items), ShrinkTail(items, tail)) == r[1..]
  {
    ShrinkGood(items, tail);
    if items != [] {
      hide Render, GoodLine, ItemBytes;
      var (g, b, rest) := (items[0].gap, ItemBytes(items[0].item), Render(items[1..], tail));
      var s := ShrinkItems(items);
      assert s[1..] == items[1..] && s[0].gap == g[1..] && s[0].item == items[0].item;
      assert Render(s, tail) == g[1..] + b + rest by { RenderFirst(s, tail); }
      assert Render(items, tail) == g + b + rest by { RenderFirst(items, tail); }
      TailOfThree(g, b, rest);
    }
  }

  lemma TailOfThree(g: seq<Byte>, b: seq<Byte>, rest: seq<Byte>)
    requires g != []
    ensures (g + b + rest)[0] == g[0] && (g + b + rest)[1..] == g[1..] + b + rest
  {
  }

  /** Every argument of the line is accepted: repaired always; as written, only when no
      non-empty quoted argument follows a terminator that is already planted. */
  predicate Accepted(items: seq<Spaced>, limit: Limit, planted: bool)
  {
    limit.Repaired? || forall k :: 0 <= k < |items| && Loaded(items[k]) ==> k == 0 && !planted
  }

  /** The result holds every argument, in order, after the ones already found. */
  ghost predicate Holds(o: Outcome, line: seq<Byte>, p: nat, args: seq<nat>, items: seq<Spaced>)
  {
    && o.Parsed? && |o.line| == |line| && p <= |line|
    && |o.args| == |args| + |items|
    && (forall k :: 0 <= k < |args| ==> o.args[k] == args[k])
    && (forall k :: 0 <= k < |items| ==> HoldsText(o.line, o.args[|args| + k], items[k].item.text))
    && (forall k :: 0 <= k < p ==> o.line[k] == line[k])
  }

  lemma ShortLimit(line: seq<Byte>, p: nat, end: nat, limit: Limit, planted: bool)
    requires Sound(line, end, limit) && (limit.Repaired? ==> limit.len == end)
    requires if planted then NUL in line[..if p <= |line| then p else |line|] else NUL !in line[..end]
    ensures limit.Repaired? || !planted ==> QuoteLimit(line, limit) == end
    ensures limit.AsWritten? && planted ==> QuoteLimit(line, limit) < p
  {
  }

  /** The scan, bounded by `whole`, takes in all of a line that stops at `stop`: nothing is cut
      off, or only the quote that closes the last argument. */
  predicate Reaches(items: seq<Spaced>, tail: seq<Byte>, whole: nat, stop: nat)
  {
    whole == stop || (whole + 1 == stop && tail == [] && (items != [] ==> items[|items| - 1].item.Quoted?))
  }

  lemma ReachesOn(items: seq<Spaced>, tail: seq<Byte>, whole: nat, stop: nat)
    requires items != [] && Reaches(items, tail, whole, stop)
    ensures Reaches(ShrinkItems(items[1..]), ShrinkTail(items[1..], tail), whole, stop)
  {
  }

  lemma {:induction false} ScanItems(line: seq<Byte>, p: nat, items: seq<Spaced>, tail: seq<Byte>,
                                     whole: nat, stop: nat, end: nat, args: seq<nat>, limit: Limit, planted: bool)
    requires Sound(line, end, limit) && (limit.Repaired? ==> limit.len == end) && stop <= end && p <= stop + 1
    requires Reaches(items, tail, whole, stop)
    requires if p <= stop then line[p..stop] == Render(items, tail) else items == []
    requires GoodLine(items, tail)
    requires if planted then NUL in line[..p] else NUL !in line[..end]
    ensures var o := Scan(line, p, whole, end, -1, args, limit);
      if Accepted(items, limit, planted) then Holds(o, line, p, args, items) else o.Unmatched? && |o.args| < |args| + |items|
    decreases |items|, 3
  {
    if p == stop + 1 {
    } else if items == [] {
      if p < whole { CrossGap(line, p, whole - p, whole, end, args, limit); }
    } else {
      ScanFirst(line, p, items, tail, whole, stop, end, args, limit, planted);
    }
  }

  lemma {:induction false} ScanFirst(line: seq<Byte>, p: nat, items: seq<Spaced>, tail: seq<Byte>,
                                     whole: nat, stop: nat, end: nat, args: seq<nat>, limit: Limit, planted: bool)
    requires Sound(line, end, limit) && (limit.Repaired? ==> limit.len == end) && p <= stop <= end
    requires Reaches(items, tail, whole, stop)
    requires items != [] && line[p..stop] == Render(items, tail) && GoodLine(items, tail)
    requires if planted then NUL in line[..p] else NUL !in line[..end]
    ensures var o := Scan(line, p, whole, end, -1, args, limit);
      if Accepted(items, limit, planted) then Holds(o, line, p, args, items) else o.Unmatched? && |o.args| < |args| + |items|
    decreases |items|, 2
  {
    hide Scan, Render, GoodLine, Holds, Accepted, ItemBytes;
    var (g, item) := (items[0].gap, items[0].item);
    GoodParts(items, tail);
    SplitFirst(line, p, items, tail, stop);
    CrossGap(line, p, |g|, whole, end, args, limit);
    match item {
      case Word(t) => ScanFirstWord(line, p, items, tail, whole, stop, end, args, limit, planted);
      case Quoted(q, t) => ScanFirstQuoted(line, p, items, tail, whole, stop, end, args, limit, planted);
    }
  }

  lemma SubSlice(line: seq<Byte>, p: nat, end: nat, a: nat, b: nat)
    requires p <= end <= |line| && a <= b <= end - p
    ensures line[p..end][a..b] == line[p + a..p + b]
  {
    var (x, y) := (line[p..end][a..b], line[p + a..p + b]);
    assert |x| == |y| && forall i :: 0 <= i < |x| ==> x[i] == line[p..end][a + i] == line[p + (a + i)] == y[i];
  }

  /** Planting a terminator leaves the rest of the line as it was. */
  lemma PlantedLine(line: seq<Byte>, close: nat, next: nat, end: nat, rest: seq<Byte>)
    requires close < next <= end + 1 && end < |line| && next >= 1
    requires next <= end ==> line[next - 1..end] == rest
    ensures next <= end ==> rest != [] && line[close := NUL][next..end] == rest[1..]
    ensures NUL in line[close := NUL][..next]
  {
    assert line[close := NUL][..next][close] == NUL;
    if next <= end { assert rest[1..] == line[next..end]; }
  }

  /** Where the pieces of the first argument lie. */
  lemma SplitFirst(line: seq<Byte>, p: nat, items: seq<Spaced>, tail: seq<Byte>, end: nat)
    requires p <= end <= |line| && items != [] && line[p..end] == Render(items, tail)
    ensures var (g, b) := (items[0].gap, ItemBytes(items[0].item));
      && p + |g| + |b| <= end
      && line[p..p + |g|] == g
      && line[p + |g|..p + |g| + |b|] == b
      && line[p + |g| + |b|..end] == Render(items[1..], tail)
  {
    hide Render, ItemBytes;
    var (g, b, rest) := (items[0].gap, ItemBytes(items[0].item), Render(items[1..], tail));
    var r := line[p..end];
    assert r == g + b + rest by { RenderFirst(items, tail); }
    assert r[..|g|] == g && r[|g|..|g| + |b|] == b && r[|g| + |b|..] == rest;
    SubSlice(line, p, end, 0, |g|);
    SubSlice(line, p, end, |g|, |g| + |b|);
    SubSlice(line, p, end, |g| + |b|, |r|);
  }

  /** Everything after the first argument, which ends at `close`; the scan goes on at `next`. */
  lemma {:induction false} ScanOthers(line: seq<Byte>, p: nat, items: seq<Spaced>, tail: seq<Byte>,
                                      whole: nat, stop: nat, end: nat, args: seq<nat>, limit: Limit, at: nat, close: nat, next: nat)
    requires Sound(line, end, limit) && (limit.Repaired? ==> limit.len == end) && stop <= end
    requires Reaches(items, tail, whole, stop)
    requires items != [] && GoodLine(items[1..], tail) && (items[1..] != [] ==> items[1..][0].gap != [])
    requires p <= at && close < next <= stop + 1
    requires at + |items[0].item.text| == close && line[at..close] == items[0].item.text
    requires Render(items[1..], tail) == if next <= stop then line[next - 1..stop] else []
    ensures var o := Scan(line[close := NUL], next, whole, end, -1, args + [at], limit);
      if Accepted(ShrinkItems(items[1..]), limit, true) then Holds(o, line, p, args, items) else o.Unmatched? && |o.args| < |args| + |items|
    decreases |items|, 0
  {
    hide Scan, Render, GoodLine, Holds, Accepted, ShrinkItems, ShrinkTail;
    var line' := line[close := NUL];
    var (items', tail') := (ShrinkItems(items[1..]), ShrinkTail(items[1..], tail));
    ShrinkRenders(items[1..], tail);
    ReachesOn(items, tail, whole, stop);
    PlantedLine(line, close, next, stop, Render(items[1..], tail));
    ScanItems(line', next, items', tail', whole, stop, end, args + [at], limit, true);
    if Accepted(items', limit, true) {
      HoldsStep(Scan(line', next, whole, end, -1, args + [at], limit), line, p, close, next, at, args, items);
    }
  }

  lemma {:induction false} ScanFirstWord(line: seq<Byte>, p: nat, items: seq<Spaced>, tail: seq<Byte>,
                                         whole: nat, stop: nat, end: nat, args: seq<nat>, limit: Limit, planted: bool)
    requires Sound(line, end, limit) && (limit.Repaired? ==> limit.len == end) && p <= stop <= end
    requires Reaches(items, tail, whole, stop)
    requires items != [] && items[0].item.Word? && line[p..stop] == Render(items, tail) && GoodLine(items, tail)
    ensures p + |items[0].gap| < whole
    ensures var o := Scan(line, p + |items[0].gap|, whole, end, -1, args, limit);
      if Accepted(items, limit, planted) then Holds(o, line, p, args, items) else o.Unmatched? && |o.args| < |args| + |items|
    decreases |items|, 1
  {
    hide Scan, Render, GoodLine, Holds, Accepted, GoodItem;
    SplitFirst(line, p, items, tail, stop);
    GoodParts(items, tail);
    var t := items[0].item.text;
    var jj := p + |items[0].gap|;
    var close := jj + |t|;
    ShrinkRenders(items[1..], tail);
    if items[1..] != [] { LongRest(items[1..], tail); }
    ScanWordItem(line, jj, t, whole, end, args, limit);
    AcceptedStep(items, limit, planted);
    if close < whole {
      ScanOthers(line, p, items, tail, whole, stop, end, args, limit, jj, close, close + 1);
    } else {
      NothingLeft(items[1..], limit);
      HoldsLast(line, p, close, jj, args, items);
    }
  }

  lemma {:induction false} ScanFirstQuoted(line: seq<Byte>, p: nat, items: seq<Spaced>, tail: seq<Byte>,
                                           whole: nat, stop: nat, end: nat, args: seq<nat>, limit: Limit, planted: bool)
    requires Sound(line, end, limit) && (limit.Repaired? ==> limit.len == end) && p <= stop <= end
    requires Reaches(items, tail, whole, stop)
    requires items != [] && items[0].item.Quoted? && line[p..stop] == Render(items, tail) && GoodLine(items, tail)
    requires if planted then NUL in line[..p] else NUL !in line[..end]
    ensures p + |items[0].gap| < whole
    ensures var o := Scan(line, p + |items[0].gap|, whole, end, -1, args, limit);
      if Accepted(items, limit, planted) then Holds(o, line, p, args, items) else o.Unmatched? && |o.args| < |args| + |items|
    decreases |items|, 1
  {
    hide Scan, Render, GoodLine, Holds, Accepted, QuoteLimit, GoodItem;
    SplitFirst(line, p, items, tail, stop);
    GoodParts(items, tail);
    var (q, t) := (items[0].item.quote, items[0].item.text);
    var jj := p + |items[0].gap|;
    var close := jj + 1 + |t|;
    QuotedParts(line, jj, q, t, stop);
    ShortLimit(line, p, end, limit, planted);
    ScanQuotedItem(line, jj, q, t, whole, end, args, limit);
    AcceptedStep(items, limit, planted);
    if limit.Repaired? || !planted || t == [] {
      ScanOthers(line, p, items, tail, whole, stop, end, args, limit, jj + 1, close, close + 2);
    }
  }

  lemma QuotedParts(line: seq<Byte>, jj: nat, q: Byte, t: seq<Byte>, end: nat)
    requires jj + |t| + 2 <= end <= |line| && line[jj..jj + |t| + 2] == [q] + t + [q]
    ensures line[jj] == q && line[jj + 1..jj + 1 + |t|] == t && line[jj + 1 + |t|] == q
  {
    var b := [q] + t + [q];
    assert b[0] == q && b[1..1 + |t|] == t && b[1 + |t|] == q;
    SubSlice(line, jj, jj + |t| + 2, 1, 1 + |t|);
  }

  lemma GoodParts(items: seq<Spaced>, tail: seq<Byte>)
    requires items != [] && GoodLine(items, tail)
    ensures GoodItem(items[0].item) && IsGap(items[0].gap) && GoodLine(items[1..], tail)
    ensures ItemBytes(items[0].item) != []
    ensures items[1..] != [] ==> items[1..][0].gap != []
  {
  }

  /** A separated argument takes at least two characters. */
  lemma LongRest(items: seq<Spaced>, tail: seq<Byte>)
    requires items != [] && GoodLine(items, tail) && items[0].gap != []
    ensures |Render(items, tail)| >= 2
  {
    hide Render;
    RenderFirst(items, tail);
  }

  lemma AcceptedStep(items: seq<Spaced>, limit: Limit, planted: bool)
    requires items != []
    ensures Accepted(items, limit, planted) <==>
      (limit.Repaired? || !(Loaded(items[0]) && planted)) && Accepted(ShrinkItems(items[1..]), limit, true)
  {
    var s := ShrinkItems(items[1..]);
    assert |s| == |items| - 1 && forall k :: 0 <= k < |s| ==> Loaded(s[k]) == Loaded(items[k + 1]);
    if limit.AsWritten? && Accepted(s, limit, true) {
      forall k | 1 <= k < |items| ensures !Loaded(items[k]) { assert !Loaded(s[k - 1]); }
    }
  }

  lemma NothingLeft(items: seq<Spaced>, limit: Limit)
    requires items == []
    ensures Accepted(ShrinkItems(items), limit, true)
  {
  }

  lemma HoldsStep(o: Outcome, line: seq<Byte>, p: nat, close: nat, next: nat, at: nat, args: seq<nat>, items: seq<Spaced>)
    requires items != [] && p <= at && close < next && close < |line|
    requires at + |items[0].item.text| == close && line[at..close] == items[0].item.text
    requires Holds(o, line[close := NUL], next, args + [at], ShrinkItems(items[1..]))
    ensures Holds(o, line, p, args, items)
  {
    var t := items[0].item.text;
    HoldsRest(o, line[close := NUL], next, at, args, items);
    KeptText(o.line, line[close := NUL], at, t, next);
  }

  lemma HoldsRest(o: Outcome, line: seq<Byte>, next: nat, at: nat, args: seq<nat>, items: seq<Spaced>)
    requires items != [] && Holds(o, line, next, args + [at], ShrinkItems(items[1..]))
    ensures |o.args| == |args| + |items| && o.args[|args|] == at
    ensures forall k :: 0 <= k < |args| ==> o.args[k] == args[k]
    ensures forall k :: 1 <= k < |items| ==> HoldsText(o.line, o.args[|args| + k], items[k].item.text)
  {
    hide HoldsText, ShrinkItems, Holds;
    var s := ShrinkItems(items[1..]);
    HoldsCount(o, line, next, args + [at], s);
    HoldsArg(o, line, next, args + [at], s, |args|);
    forall k | 0 <= k < |args| ensures o.args[k] == args[k] { HoldsArg(o, line, next, args + [at], s, k); }
    forall k | 1 <= k < |items| ensures HoldsText(o.line, o.args[|args| + k], items[k].item.text) {
      HoldsItem(o, line, next, args + [at], s, k - 1);
      ShrunkItem(items, k - 1);
    }
  }

  lemma HoldsCount(o: Outcome, line: seq<Byte>, p: nat, args: seq<nat>, items: seq<Spaced>)
    requires Holds(o, line, p, args, items)
    ensures |o.args| == |args| + |items|
  {
  }

  lemma HoldsArg(o: Outcome, line: seq<Byte>, p: nat, args: seq<nat>, items: seq<Spaced>, k: nat)
    requires Holds(o, line, p, args, items) && k < |args|
    ensures k < |o.args| && o.args[k] == args[k]
  {
  }

  lemma HoldsItem(o: Outcome, line: seq<Byte>, p: nat, args: seq<nat>, items: seq<Spaced>, k: nat)
    requires Holds(o, line, p, args, items) && k < |items|
    ensures |args| + k < |o.args| && HoldsText(o.line, o.args[|args| + k], items[k].item.text)
  {
  }

  lemma ShrunkItem(items: seq<Spaced>, k: nat)
    requires k + 1 < |items|
    ensures ShrinkItems(items[1..])[k].item == items[k + 1].item
  {
  }

  lemma KeptText(after: seq<Byte>, line: seq<Byte>, at: nat, t: seq<Byte>, next: nat)
    requires |after| == |line| && at + |t| < next <= |line|
    requires line[at..at + |t|] == t && line[at + |t|] == NUL
    requires forall k :: 0 <= k < next ==> after[k] == line[k]
    ensures HoldsText(after, at, t)
  {
    assert after[at..at + |t|] == line[at..at + |t|];
  }

  lemma HoldsLast(line: seq<Byte>, p: nat, close: nat, at: nat, args: seq<nat>, items: seq<Spaced>)
    requires |items| == 1 && p <= at && close < |line|
    requires at + |items[0].item.text| == close && line[at..close] == items[0].item.text
    ensures Holds(Parsed(line[close := NUL], args + [at]), line, p, args, items)
  {
  }

  // ---- the round trip ----

  /** A line of good arguments, its terminator, and whatever the memory holds after it. */
  function Memory(items: seq<Spaced>, tail: seq<Byte>, after: seq<Byte>): seq<Byte>
  {
    Render(items, tail) + [NUL] + after
  }

  lemma {:induction false} RenderHasNoNul(items: seq<Spaced>, tail: seq<Byte>)
    requires GoodLine(items, tail)
    ensures NUL !in Render(items, tail)
  {
    if items != [] {
      GoodParts(items, tail);
      RenderHasNoNul(items[1..], tail);
      assert NUL !in items[0].gap && NUL !in ItemBytes(items[0].item);
    }
  }

  /** The scan found exactly these arguments and terminated each one in place. */
  ghost predicate Recovered(o: Outcome, items: seq<Spaced>)
  {
    && o.Parsed? && |o.args| == |items|
    && forall k :: 0 <= k < |items| ==> HoldsText(o.line, o.args[k], items[k].item.text)
  }

  /** The line ends in the middle of a word at the one length at which its last character is lost. */
  predicate Clipped(items: seq<Spaced>, tail: seq<Byte>)
  {
    |Render(items, tail)| == COMMAND_SIZE && tail == [] && items != [] && items[|items| - 1].item.Word?
  }

  /** The arguments and the trailing delimiters once the last character is gone. */
  function CutItems(items: seq<Spaced>, tail: seq<Byte>): seq<Spaced>
  {
    if items == [] || tail != [] then items
    else
      var (front, z) := (items[..|items| - 1], items[|items| - 1]);
      var n := |z.item.text|;
      if n <= 1 then front else front + [Spaced(z.gap, Word(z.item.text[..n - 1]))]
  }

  function CutTail(items: seq<Spaced>, tail: seq<Byte>): seq<Byte>
  {
    if tail != [] then tail[..|tail| - 1]
    else if items != [] && |items[|items| - 1].item.text| <= 1 then items[|items| - 1].gap
    else []
  }

  lemma {:induction false} RenderMore(items: seq<Spaced>, a: seq<Byte>, b: seq<Byte>)
    ensures Render(items, a + b) == Render(items, a) + b
  {
    if items != [] {
      hide ItemBytes;
      RenderMore(items[1..], a, b);
      var (head, rest) := (items[0].gap + ItemBytes(items[0].item), Render(items[1..], a));
      assert head + (rest + b) == head + rest + b;
    }
  }

  lemma {:induction false} RenderLast(items: seq<Spaced>, z: Spaced, tail: seq<Byte>)
    ensures Render(items + [z], tail) == Render(items, z.gap + ItemBytes(z.item) + tail)
  {
    if items == [] {
      assert (items + [z])[1..] == [];
    } else {
      assert (items + [z])[1..] == items[1..] + [z];
      RenderLast(items[1..], z, tail);
    }
  }

  lemma CutGood(items: seq<Spaced>, tail: seq<Byte>)
    requires GoodLine(items, tail) && (tail != [] || (items != [] && items[|items| - 1].item.Word?))
    ensures GoodLine(CutItems(items, tail), CutTail(items, tail))
  {
  }

  lemma CutWord(front: seq<Spaced>, g: seq<Byte>, t: seq<Byte>)
    requires t != []
    ensures var items := front + [Spaced(g, Word(t))];
      Render(items, []) == Render(CutItems(items, []), CutTail(items, [])) + t[|t| - 1..]
  {
    hide Render;
    var (a, b) := (t[..|t| - 1], t[|t| - 1..]);
    var items := front + [Spaced(g, Word(t))];
    assert items[..|items| - 1] == front;
    RenderLast(front, Spaced(g, Word(t)), []);
    assert g + t + [] == (g + a) + b;
    RenderMore(front, g + a, b);
    if a == [] {
      assert g + a == g;
    } else {
      RenderLast(front, Spaced(g, Word(a)), []);
      assert g + a + [] == g + a;
    }
  }

  lemma CutRenders(items: seq<Spaced>, tail: seq<Byte>)
    requires tail != [] || (items != [] && items[|items| - 1].item.Word? && items[|items| - 1].item.text != [])
    ensures var r := Render(items, tail);
      r != [] && Render(CutItems(items, tail), CutTail(items, tail)) == r[..|r| - 1]
  {
    hide Render;
    if tail != [] {
      var n := |tail| - 1;
      assert tail == tail[..n] + tail[n..];
      RenderMore(items, tail[..n], tail[n..]);
    } else {
      hide CutItems, CutTail;
      var (front, z) := (items[..|items| - 1], items[|items| - 1]);
      assert items == front + [Spaced(z.gap, Word(z.item.text))];
      CutWord(front, z.gap, z.item.text);
    }
  }

  lemma CutAccepted(items: seq<Spaced>, tail: seq<Byte>, limit: Limit)
    requires tail != [] || (items != [] && items[|items| - 1].item.Word?)
    ensures Accepted(CutItems(items, tail), limit, false) <==> Accepted(items, limit, false)
    ensures |CutItems(items, tail)| <= |items|
  {
    var c := CutItems(items, tail);
    assert forall k :: 0 <= k < |c| ==> Loaded(c[k]) == Loaded(items[k]);
    assert forall k :: |c| <= k < |items| ==> !Loaded(items[k]);
  }

  /** No outcome can give back both a line and the same line with its last word clipped. */
  lemma CutDiffers(items: seq<Spaced>, o: Outcome)
    requires items != [] && items[|items| - 1].item.Word? && GoodItem(items[|items| - 1].item)
    requires Recovered(o, CutItems(items, []))
    ensures !Recovered(o, items)
  {
    var t := items[|items| - 1].item.text;
    assert |t| > 1 ==> CutItems(items, [])[|items| - 1].item.text == t[..|t| - 1];
  }

  /** The scan of a whole memory, when the arguments take in its first `stop` characters. */
  lemma TokenizeReaching(m: seq<Byte>, items: seq<Spaced>, tail: seq<Byte>, stop: nat, end: nat, limit: Limit)
    requires Terminated(m, 0) && StrEnd(m, 0) == end && end + 1 < |m| && NUL !in m[..end]
    requires (limit.Repaired? ==> limit.len == end) && GoodLine(items, tail)
    requires stop <= end && m[..stop] == Render(items, tail) && Reaches(items, tail, WholeLength(end), stop)
    ensures var o := Tokenize(m, limit);
      if Accepted(items, limit, false) then Recovered(o, items) else o.Unmatched? && |o.args| < |items|
  {
    hide Scan, Render, GoodLine, HoldsText;
    assert m[0..stop] == m[..stop];
    ScanItems(m, 0, items, tail, WholeLength(end), stop, end, [], limit, false);
    if Accepted(items, limit, false) {
      var o := Tokenize(m, limit);
      forall k | 0 <= k < |items| ensures HoldsText(o.line, o.args[k], items[k].item.text) {
        assert HoldsText(o.line, o.args[0 + k], items[k].item.text);
      }
    }
  }

  /** Every well-formed line comes back as exactly its arguments, NUL-terminated in place, if
      and only if it is accepted and not clipped. Quotes looked for up to the line's own end
      accept every line; as the code is written a line is rejected exactly when a quoted
      argument after the first one is non-empty. A clipped line comes back without its last
      character. */
  lemma RoundTrip(items: seq<Spaced>, tail: seq<Byte>, after: seq<Byte>, repaired: bool)
    requires GoodLine(items, tail) && after != []
    ensures var m := Memory(items, tail, after);
      Terminated(m, 0) && StrEnd(m, 0) == |Render(items, tail)|
    ensures var m := Memory(items, tail, after);
      var o := Tokenize(m, if repaired then Repaired(|Render(items, tail)|) else AsWritten);
      if repaired || forall k :: 1 <= k < |items| ==> !Loaded(items[k])
      then (Recovered(o, items) <==> !Clipped(items, tail))
           && (Clipped(items, tail) ==> Recovered(o, CutItems(items, tail)))
      else o.Unmatched? && |o.args| < |items|
  {
    hide Scan, Render, GoodLine, HoldsText, Recovered, CutItems, CutTail;
    var text := Render(items, tail);
    var m := Memory(items, tail, after);
    RenderHasNoNul(items, tail);
    assert m[0..0 + |text|] == text;
    TextAt(m, 0, text);
    var end := |text|;
    var limit := if repaired then Repaired(end) else AsWritten;
    assert m[..end] == text;
    if end == COMMAND_SIZE && (tail != [] || Clipped(items, tail)) {
      var (items', tail') := (CutItems(items, tail), CutTail(items, tail));
      CutGood(items, tail);
      if tail == [] { GoodLast(items, tail); }
      CutRenders(items, tail);
      CutAccepted(items, tail, limit);
      assert m[..end - 1] == text[..end - 1];
      TokenizeReaching(m, items', tail', end - 1, end, limit);
      if tail != [] {
        KeptItems(items, tail);
      } else if Accepted(items', limit, false) {
        CutDiffers(items, Tokenize(m, limit));
      }
    } else {
      TokenizeReaching(m, items, tail, end, end, limit);
    }
  }

  lemma KeptItems(items: seq<Spaced>, tail: seq<Byte>)
    requires tail != []
    ensures CutItems(items, tail) == items
  {
  }

  lemma GoodLast(items: seq<Spaced>, tail: seq<Byte>)
    requires items != [] && GoodLine(items, tail)
    ensures GoodItem(items[|items| - 1].item)
    ensures items[|items| - 1].item.Word? ==> items[|items| - 1].item.text != []
  {
  }

  /** One word of 127 characters comes back as its first 126. */
  lemma LongestLineIsCut(t: seq<Byte>, after: seq<Byte>)
    requires GoodItem(Word(t)) && |t| == COMMAND_SIZE && after != []
    ensures var m := t + [NUL] + after;
      Terminated(m, 0) && StrEnd(m, 0) + 1 < |m| &&
      Recovered(Tokenize(m, AsWritten), [Spaced([], Word(t[..COMMAND_SIZE - 1]))])
  {
    var items := [Spaced([], Word(t))];
    assert Render(items, []) == t by { RenderOne(Spaced([], Word(t))); }
    hide Render, Recovered, Tokenize;
    RoundTrip(items, [], after, false);
    assert [] + CutItems(items, []) == [Spaced([], Word(t[..COMMAND_SIZE - 1]))];
  }

  lemma RenderOne(s: Spaced)
    ensures Render([s], []) == s.gap + ItemBytes(s.item)
  {
    assert [s][1..] == [];
  }

  /** A word and a quoted argument, as in: set "on". */
  function WordThenQuoted(word: seq<Byte>, quoted: seq<Byte>): seq<Spaced>
  {
    [Spaced([], Word(word)), Spaced([SPACE], Quoted(DOUBLE, quoted))]
  }

  lemma WordThenQuotedRenders(word: seq<Byte>, quoted: seq<Byte>)
    ensures Render(WordThenQuoted(word, quoted), []) == word + [SPACE] + ([DOUBLE] + quoted + [DOUBLE])
  {
    var items := WordThenQuoted(word, quoted);
    assert items[1..] == [items[1]];
    RenderOne(items[1]);
  }

  /** Its quote is looked for in a line that by then ends after the word. */
  lemma QuotedSecondIsRejected(after: seq<Byte>)
    requires after != []
    ensures var m := [0x73, 0x65, 0x74] + [SPACE] + ([DOUBLE] + [0x6f, 0x6e] + [DOUBLE]) + [NUL] + after;
      Terminated(m, 0) && StrEnd(m, 0) + 1 < |m| && Tokenize(m, AsWritten).Unmatched?
  {
    hide Render, Recovered, Tokenize;
    var items := WordThenQuoted([0x73, 0x65, 0x74], [0x6f, 0x6e]);
    WordThenQuotedRenders([0x73, 0x65, 0x74], [0x6f, 0x6e]);
    assert Loaded(items[1]);
    RoundTrip(items, [], after, false);
  }

  /** The character after a closing quote is lost, whatever it is: the scan goes on behind it. */
  lemma SkippedAfterQuote(q: Byte, t: seq<Byte>, x: Byte, items: seq<Spaced>, tail: seq<Byte>, after: seq<Byte>)
    requires GoodItem(Quoted(q, t)) && x != NUL && after != []
    requires GoodLine(items, tail) && forall k :: 0 <= k < |items| ==> !Loaded(items[k])
    requires var n := |t| + 3 + |Render(items, tail)|; Reaches(items, tail, WholeLength(n), n) && |t| + 3 <= WholeLength(n)
    ensures var m := [q] + t + [q, x] + Render(items, tail) + [NUL] + after;
      && Terminated(m, 0) && StrEnd(m, 0) + 1 < |m|
      && var o := Tokenize(m, AsWritten);
        && o.Parsed? && |o.args| == 1 + |items| && HoldsText(o.line, o.args[0], t)
        && forall k :: 0 <= k < |items| ==> HoldsText(o.line, o.args[1 + k], items[k].item.text)
  {
    hide Render, Scan, GoodLine, Holds, StrEnd, Tokenize, Reaches, Accepted;
    var rest := Render(items, tail);
    var m := [q] + t + [q, x] + rest + [NUL] + after;
    var (end, close, p) := (|t| + 3 + |rest|, |t| + 1, |t| + 3);
    RenderHasNoNul(items, tail);
    QuotedHead(q, t, x, rest, after);
    ScanHead(m, q, t, p, end);
    var line := m[close := NUL];
    PlantedHead(m, close, p, end, rest);
    NoneLoaded(items);
    ScanItems(line, p, items, tail, WholeLength(end), end, end, [1], AsWritten, true);
    var o := Tokenize(m, AsWritten);
    HoldsCount(o, line, p, [1], items);
    HoldsArg(o, line, p, [1], items, 0);
    HeldText(o, line, p, [1], items, 1, t);
    forall k | 0 <= k < |items| ensures HoldsText(o.line, o.args[1 + k], items[k].item.text) {
      HoldsItem(o, line, p, [1], items, k);
    }
  }

  lemma NoneLoaded(items: seq<Spaced>)
    requires forall k :: 0 <= k < |items| ==> !Loaded(items[k])
    ensures Accepted(items, AsWritten, true)
  {
  }

  lemma HeldText(o: Outcome, line: seq<Byte>, p: nat, args: seq<nat>, items: seq<Spaced>, at: nat, t: seq<Byte>)
    requires Holds(o, line, p, args, items) && at + |t| < p <= |line|
    requires line[at..at + |t|] == t && line[at + |t|] == NUL
    ensures o.Parsed? && HoldsText(o.line, at, t)
  {
    KeptText(o.line, line, at, t, p);
  }

  lemma QuotedHead(q: Byte, t: seq<Byte>, x: Byte, rest: seq<Byte>, after: seq<Byte>)
    requires q != NUL && x != NUL && NUL !in t && NUL !in rest && after != []
    ensures var m := [q] + t + [q, x] + rest + [NUL] + after;
      var end := |t| + 3 + |rest|;
      && Terminated(m, 0) && StrEnd(m, 0) == end && end + 1 < |m| && m[end] == NUL && NUL !in m[..end]
      && m[0] == q && m[1..1 + |t|] == t && m[1 + |t|] == q && m[|t| + 3..end] == rest
  {
    var text := [q] + t + [q, x] + rest;
    var m := text + [NUL] + after;
    assert m[0..0 + |text|] == text && m[..|text|] == text;
    TextAt(m, 0, text);
    assert text[1..1 + |t|] == t && text[|t| + 3..] == rest;
  }

  lemma ScanHead(m: seq<Byte>, q: Byte, t: seq<Byte>, p: nat, end: nat)
    requires GoodItem(Quoted(q, t)) && p == |t| + 3 <= WholeLength(end)
    requires Terminated(m, 0) && StrEnd(m, 0) == end && end + 1 < |m| && m[end] == NUL
    requires m[0] == q && m[1..1 + |t|] == t && m[1 + |t|] == q
    ensures Tokenize(m, AsWritten) == Scan(m[1 + |t| := NUL], p, WholeLength(end), end, -1, [1], AsWritten)
  {
    hide Scan;
    ScanQuotedItem(m, 0, q, t, WholeLength(end), end, [], AsWritten);
    assert [] + [0 + 1] == [1];
  }

  lemma PlantedHead(m: seq<Byte>, close: nat, p: nat, end: nat, rest: seq<Byte>)
    requires close < p <= end < |m| && m[p..end] == rest
    requires close >= 1
    ensures var line := m[close := NUL];
      line[p..end] == rest && NUL in line[..p] && line[end] == m[end] && line[close] == NUL && line[1..close] == m[1..close]
  {
    assert m[close := NUL][..p][close] == NUL;
  }

  // ---- the same in bytes ----

  /** A word is free of NUL, tab, space and both quotes; the first argument may instead be enclosed
      in 0x22 or in 0x27, and is then free of NUL and that quote. */
  predicate TypedItem(i: Item, first: bool)
  {
    match i
    case Word(t) => t != [] && forall k :: 0 <= k < |t| ==> t[k] !in {0x00, 0x09, 0x20, 0x22, 0x27}
    case Quoted(q, t) => first && (q == 0x22 || q == 0x27) && 0x00 !in t && q !in t
  }

  /** Arguments with any runs of spaces and tabs around them, at least one between two. */
  predicate TypedLine(items: seq<Spaced>, tail: seq<Byte>)
  {
    && (forall k :: 0 <= k < |tail| ==> tail[k] == 0x20 || tail[k] == 0x09)
    && (forall k :: 0 <= k < |items| ==> TypedItem(items[k].item, k == 0))
    && (forall k, i :: 0 <= k < |items| && 0 <= i < |items[k].gap| ==> items[k].gap[i] == 0x20 || items[k].gap[i] == 0x09)
    && (forall k :: 1 <= k < |items| ==> items[k].gap != [])
  }

  lemma TypedIsGood(items: seq<Spaced>, tail: seq<Byte>)
    requires TypedLine(items, tail)
    ensures GoodLine(items, tail) && forall k :: 1 <= k < |items| ==> !Loaded(items[k])
  {
    forall k | 0 <= k < |items| ensures GoodItem(items[k].item) && IsGap(items[k].gap) {
      assert TypedItem(items[k].item, k == 0);
    }
    forall k | 1 <= k < |items| ensures !Loaded(items[k]) { assert TypedItem(items[k].item, k == 0); }
  }

  /** Memory holds the text and a zero at `at`. */
  predicate TextAndZero(line: seq<Byte>, at: nat, text: seq<Byte>)
  {
    at + |text| < |line| && line[at..at + |text|] == text && line[at + |text|] == 0x00
  }

  /** Such a line, unless it ends in a word at its 127th character, gives exactly its arguments. */
  lemma TypedLineIsSplit(items: seq<Spaced>, tail: seq<Byte>, after: seq<Byte>)
    requires TypedLine(items, tail) && after != []
    requires |Render(items, tail)| == 127 ==> tail != [] || items[|items| - 1].item.Quoted?
    ensures var m := Render(items, tail) + [0x00] + after;
      && Terminated(m, 0) && StrEnd(m, 0) + 1 < |m|
      && var o := Tokenize(m, AsWritten);
        o.Parsed? && |o.args| == |items| && forall k :: 0 <= k < |items| ==> TextAndZero(o.line, o.args[k], items[k].item.text)
  {
    TypedIsGood(items, tail);
    hide Render, Tokenize, GoodLine;
    RoundTrip(items, tail, after, false);
    assert !Clipped(items, tail);
    var o := Tokenize(Render(items, tail) + [0x00] + after, AsWritten);
    forall k | 0 <= k < |items| ensures TextAndZero(o.line, o.args[k], items[k].item.text) {
      assert HoldsText(o.line, o.args[k], items[k].item.text);
    }
  }

  // ---- the scan in place ----

  lemma {:induction false} ScanGrows(line: seq<Byte>, jj: nat, whole: nat, end: nat, start: int, args: seq<nat>, limit: Limit)
    requires Sound(line, end, limit) && whole <= end && jj <= end + 1
    ensures |Scan(line, jj, whole, end, start, args, limit).args| >= |args|
    decreases end + 1 - jj
  {
    if jj < whole {
      var c := line[jj];
      if IsQuote(c) {
        var kk := CloseAt(line, jj + 1, QuoteLimit(line, limit), c);
        if line[kk] == c { ScanGrows(line[kk := NUL], kk + 2, whole, end, start, args + [jj + 1], limit); }
      } else if IsDelimiter(c) {
        if start >= 0 {
          ScanGrows(line[jj := NUL], jj + 1, whole, end, -1, args + [start as nat], limit);
        } else {
          ScanGrows(line, jj + 1, whole, end, -1, args, limit);
        }
      } else {
        ScanGrows(line, jj + 1, whole, end, if start < 0 then jj else start, args, limit);
      }
    }
  }

  /** The body of the loop for a quote: finds the match, or fails. */
  method SwallowQuoted(line: array<Byte>, jj: nat, end: nat) returns (kk: nat)
    requires Sound(line[..], end, AsWritten) && jj < end && IsQuote(line[jj])
    ensures kk == CloseAt(line[..], jj + 1, QuoteLimit(line[..], AsWritten), line[jj]) && kk <= end
  {
    var len := StrEnd(line[..], 0);
    kk := jj + 1;
    while kk < len && line[kk] != line[jj]
      invariant jj + 1 <= kk <= end
      invariant CloseAt(line[..], jj + 1, len, line[jj]) == CloseAt(line[..], kk, len, line[jj])
      decreases len - kk
    {
      kk := kk + 1;
    }
  }

  /** Splits the line in place; `argv` receives offsets, None being a null pointer. More than 32
      arguments would run past `argv`, which the code leaves to its caller. */
  method CmdParse(line: array<Byte>, argv: array<Option<nat>>) returns (ok: bool, argi: nat)
    requires Terminated(line[..], 0) && StrEnd(line[..], 0) + 1 < line.Length <= 0x7fff
    requires argv.Length == MAXARGS && |Tokenize(line[..], AsWritten).args| <= MAXARGS
    modifies line, argv
    ensures var o := Tokenize(old(line[..]), AsWritten);
      && ok == o.Parsed? && line[..] == o.line
      && argi == |o.args| && forall k :: 0 <= k < MAXARGS ==> argv[k] == if k < argi then Some(o.args[k]) else None
  {
    hide Scan, QuoteLimit;
    ghost var untouched, o := line[..], Tokenize(line[..], AsWritten);
    var end := StrEnd(line[..], 0);
    var whole := WholeLength(end);
    forall k | 0 <= k < MAXARGS { argv[k] := None; }
    assert line[..] == untouched;
    ghost var found: seq<nat> := [];
    argi := 0;
    var jj, argstart := 0, -1;
    while jj < whole
      invariant 0 <= jj <= end + 1 && whole <= end && Sound(line[..], end, AsWritten)
      invariant -1 <= argstart && argi == |found| <= MAXARGS
      invariant forall k :: 0 <= k < MAXARGS ==> argv[k] == if k < argi then Some(found[k]) else None
      invariant Scan(line[..], jj, whole, end, argstart, found, AsWritten) == o
      decreases end + 1 - jj
    {
      ScanStep(line[..], jj, whole, end, argstart, found, AsWritten);
      var c := line[jj];
      if IsQuote(c) {
        var kk := SwallowQuoted(line, jj, end);
        if line[kk] != c {
          return false, argi;
        }
        ghost var before := line[..];
        line[kk] := NUL;
        assert line[..] == before[kk := NUL];
        argv[argi] := Some(jj + 1);
        found := found + [jj + 1];
        argi := argi + 1;
        jj := kk + 1;
      } else if IsDelimiter(c) {
        if argstart >= 0 {
          ghost var before := line[..];
          line[jj] := NUL;
          assert line[..] == before[jj := NUL];
          argv[argi] := Some(argstart);
          found := found + [argstart];
          argi := argi + 1;
          argstart := -1;
        }
      } else if argstart < 0 {
        argstart := jj;
      }
      jj := jj + 1;
    }
    ScanStep(line[..], jj, whole, end, argstart, found, AsWritten);
    if argstart >= 0 {
      ghost var before := line[..];
      line[jj] := NUL;
      assert line[..] == before[jj := NUL];
      argv[argi] := Some(argstart);
      found := found + [argstart];
      argi := argi + 1;
    }
    ok := true;
  }

  /** The tokenizer on a typed line: args receives exactly the arguments, in place, and then nulls. */
  method ParseTyped(line: array<Byte>, argv: array<Option<nat>>, ghost items: seq<Spaced>, ghost tail: seq<Byte>)
    returns (ok: bool, argi: nat)
    requires TypedLine(items, tail) && |items| <= 32
    requires |Render(items, tail)| == 127 ==> tail != [] || items[|items| - 1].item.Quoted?
    requires |Render(items, tail)| + 1 < line.Length <= 0x7fff && argv.Length == 32
    requires line[..|Render(items, tail)| + 1] == Render(items, tail) + [0x00]
    modifies line, argv
    ensures ok && argi == |items|
    ensures forall k :: 0 <= k < argi ==> argv[k].Some? && TextAndZero(line[..], argv[k].value, items[k].item.text)
    ensures forall k :: argi <= k < 32 ==> argv[k].None?
  {
    hide Render, Tokenize, TypedLine, TextAndZero;
    ghost var n := |Render(items, tail)| + 1;
    ghost var after := line[n..];
    assert line[..] == Render(items, tail) + [0x00] + after;
    TypedLineIsSplit(items, tail, after);
    ok, argi := CmdParse(line, argv);
  }

  /** One turn of the scan, and the room it leaves in args. */
  lemma ScanStep(line: seq<Byte>, jj: nat, whole: nat, end: nat, start: int, args: seq<nat>, limit: Limit)
    requires Sound(line, end, limit) && whole <= end && jj <= end + 1
    ensures var o := Scan(line, jj, whole, end, start, args, limit);
      if jj >= whole then
        if start >= 0 then o == Parsed(line[jj := NUL], args + [start as nat]) else o == Parsed(line, args)
      else if IsQuote(line[jj]) then
        var kk := CloseAt(line, jj + 1, QuoteLimit(line, limit), line[jj]);
        if line[kk] != line[jj] then o == Unmatched(line, args)
        else o == Scan(line[kk := NUL], kk + 2, whole, end, start, args + [jj + 1], limit) && |o.args| > |args|
      else if IsDelimiter(line[jj]) then
        if start >= 0 then
          o == Scan(line[jj := NUL], jj + 1, whole, end, -1, args + [start as nat], limit) && |o.args| > |args|
        else o == Scan(line, jj + 1, whole, end, -1, args, limit)
      else o == Scan(line, jj + 1, whole, end, if start < 0 then jj else start, args, limit)
  {
    if jj < whole && IsQuote(line[jj]) {
      var kk := CloseAt(line, jj + 1, QuoteLimit(line, limit), line[jj]);
      if line[kk] == line[jj] { ScanGrows(line[kk := NUL], kk + 2, whole, end, start, args + [jj + 1], limit); }
    } else if jj < whole && IsDelimiter(line[jj]) && start >= 0 {
      ScanGrows(line[jj := NUL], jj + 1, whole, end, -1, args + [start as nat], limit);
    }
  }
}
