/** The DfuSe memory-layout string `/<base>/<N>*<SZ><m><c>,...` and the
    segments it describes. The two copies of the parser in the source
    (pfu_util/parser.py:35-73 and pyfu_usb/descriptor.py:93-135) share this
    specification; each is an imperative loop proved equal to `ParseLayout`. */
module Layout {
  import opened Base

  /** One memory segment: `size == numPages * pageSize`, last address inclusive. */
  datatype Segment = Segment(addr: int, lastAddr: int, size: int, numPages: nat, pageSize: nat)

  // ---------------------------------------------------------------------------
  // str.split(sep) with a one-character separator

  /** Python's `s.split(sep)`: the pieces between separators, empty ones kept. */
  function Split(s: string, sep: char): (parts: seq<string>)
    ensures |parts| >= 1
  {
    if s == [] then [[]]
    else
      var rest := Split(s[1..], sep);
      if s[0] == sep then [[]] + rest else [[s[0]] + rest[0]] + rest[1..]
  }

  /** Python's `sep.join(parts)`. */
  function Join(parts: seq<string>, sep: char): string
    requires |parts| >= 1
  {
    if |parts| == 1 then parts[0] else parts[0] + [sep] + Join(parts[1..], sep)
  }

  /** Joining the pieces gives back the string. */
  lemma {:induction false} JoinSplit(s: string, sep: char)
    ensures Join(Split(s, sep), sep) == s
  {
    if s != [] {
      JoinSplit(s[1..], sep);
      var rest := Split(s[1..], sep);
      if s[0] != sep {
        var parts := Split(s, sep);
        if |rest| > 1 {
          assert parts[1..] == rest[1..];
        }
      }
    }
  }

  /** Splitting a join of separator-free pieces gives back the pieces. */
  lemma {:induction false} SplitJoin(parts: seq<string>, sep: char)
    requires |parts| >= 1
    requires forall k :: 0 <= k < |parts| ==> sep !in parts[k]
    ensures Split(Join(parts, sep), sep) == parts
  {
    if |parts| == 1 {
      SplitNoSeparator(parts[0], sep);
    } else {
      var j := Join(parts[1..], sep);
      assert sep !in parts[0];
      SplitJoin(parts[1..], sep);
      SplitPrefix(parts[0], [sep] + j, sep);
      assert Join(parts, sep) == parts[0] + ([sep] + j);
      assert Split([sep] + j, sep) == [[]] + parts[1..] by {
        assert ([sep] + j)[1..] == j;
      }
      assert parts[0] + [] == parts[0];
      assert [parts[0]] + parts[1..] == parts;
    }
  }

  lemma {:induction false} SplitNoSeparator(s: string, sep: char)
    requires sep !in s
    ensures Split(s, sep) == [s]
  {
    if s != [] {
      assert s[0] != sep && sep !in s[1..];
      SplitNoSeparator(s[1..], sep);
      assert [s[0]] + s[1..] == s;
    }
  }

  /** A separator-free head joins the first piece of what follows. */
  lemma {:induction false} SplitPrefix(head: string, tail: string, sep: char)
    requires sep !in head
    ensures Split(head + tail, sep) == [head + Split(tail, sep)[0]] + Split(tail, sep)[1..]
  {
    var x := Split(tail, sep);
    if head == [] {
      assert head + tail == tail;
      assert head + x[0] == x[0];
      assert [x[0]] + x[1..] == x;
    } else {
      assert (head + tail)[1..] == head[1..] + tail;
      assert (head + tail)[0] == head[0] != sep;
      assert sep !in head[1..];
      SplitPrefix(head[1..], tail, sep);
      assert [head[0]] + (head[1..] + x[0]) == head + x[0];
    }
  }

  // ---------------------------------------------------------------------------
  // int(s, 0): Python integer literal syntax (sign, 0x/0o/0b prefixes, underscores)

  /** Python's `str.isspace()`. */
  predicate IsSpace(c: char)
  {
    || c == ' ' || '\t' <= c <= '\r' || '\U{1c}' <= c <= '\U{1f}' || c == '\U{85}' || c == '\U{a0}'
    || c == '\U{1680}' || '\U{2000}' <= c <= '\U{200a}' || c == '\U{2028}' || c == '\U{2029}'
    || c == '\U{202f}' || c == '\U{205f}' || c == '\U{3000}'
  }

  function StripLeft(s: string): (t: string)
    ensures |t| <= |s|
  {
    if s != [] && IsSpace(s[0]) then StripLeft(s[1..]) else s
  }

  function StripRight(s: string): (t: string)
  {
    if s != [] && IsSpace(s[|s| - 1]) then StripRight(s[..|s| - 1]) else s
  }

  /** The value of an ASCII digit or letter in bases up to 36; 36 for anything else. */
  function DigitValue(c: char): nat
  {
    if '0' <= c <= '9' then c as int - '0' as int
    else if 'a' <= c <= 'z' then c as int - 'a' as int + 10
    else if 'A' <= c <= 'Z' then c as int - 'A' as int + 10
    else 36
  }

  /** Digits in `base`, single underscores allowed between digits. */
  function DigitsValue(s: string, base: nat): Option<nat>
    decreases |s|
  {
    if s == [] || DigitValue(s[|s| - 1]) >= base then None
    else if |s| == 1 then Some(DigitValue(s[0]))
    else
      var init := if s[|s| - 2] == '_' then s[..|s| - 2] else s[..|s| - 1];
      match DigitsValue(init, base)
      case None => None
      case Some(v) => Some(Place(v, base, DigitValue(s[|s| - 1])))
  }

  /** A number with one more digit `d` in `base`. */
  function Place(v: nat, base: nat, d: nat): nat { v * base + d }

  function Signed(negative: bool, v: Option<nat>): Option<int>
  {
    match v
    case None => None
    case Some(n) => Some(if negative then -(n as int) else n)
  }

  /** The digits after a base prefix, where one underscore may follow the prefix. */
  function AfterPrefix(s: string, base: nat): Option<nat>
  {
    if s != [] && s[0] == '_' then DigitsValue(s[1..], base) else DigitsValue(s, base)
  }

  /** Python's `int(s, 0)` on ASCII digits; None where Python raises ValueError.
      Other Unicode decimal digits, which Python also reads, give None here. */
  function IntBase0(s: string): Option<int>
  {
    var t := StripRight(StripLeft(s));
    var negative := t != [] && t[0] == '-';
    var body := if t != [] && (t[0] == '-' || t[0] == '+') then t[1..] else t;
    if |body| >= 2 && body[0] == '0' && (body[1] == 'x' || body[1] == 'X') then
      Signed(negative, AfterPrefix(body[2..], 16))
    else if |body| >= 2 && body[0] == '0' && (body[1] == 'o' || body[1] == 'O') then
      Signed(negative, AfterPrefix(body[2..], 8))
    else if |body| >= 2 && body[0] == '0' && (body[1] == 'b' || body[1] == 'B') then
      Signed(negative, AfterPrefix(body[2..], 2))
    else if body != [] && body[0] == '0' then
      // only a zero-valued decimal literal may start with 0
      if DigitsValue(body, 10) == Some(0) then Some(0) else None
    else
      Signed(negative, DigitsValue(body, 10))
  }

  // ---------------------------------------------------------------------------
  // re.match(r"(\d+)\*(\d+)(.)(.)", token)

  predicate IsDigit(c: char) { '0' <= c <= '9' }

  /** How many digits follow position `from`. */
  function DigitRun(s: string, from: nat): (n: nat)
    requires from <= |s|
    ensures from + n <= |s|
    decreases |s| - from
  {
    if from < |s| && IsDigit(s[from]) then 1 + DigitRun(s, from + 1) else 0
  }

  /** The run is made of digits and stops at a non-digit or at the end. */
  lemma {:induction false} DigitRunDigits(s: string, from: nat)
    requires from <= |s|
    ensures forall k :: from <= k < from + DigitRun(s, from) ==> IsDigit(s[k])
    ensures from + DigitRun(s, from) == |s| || !IsDigit(s[from + DigitRun(s, from)])
    decreases |s| - from
  {
    if from < |s| && IsDigit(s[from]) {
      DigitRunDigits(s, from + 1);
    }
  }

  /** `int(g, 10)` of a run of ASCII digits. */
  function Decimal(s: string): nat
  {
    if s == [] then 0 else 10 * Decimal(s[..|s| - 1]) + DigitValue(s[|s| - 1])
  }

  /** The four groups of a successful match. */
  datatype SegmentMatch = SegmentMatch(numPages: string, pageSize: string, multiplier: char, code: char)

  /** `(.)(.)` can match at `j`: two characters, neither a newline. */
  predicate TailFits(t: string, j: nat)
  {
    j + 1 < |t| && t[j] != '\n' && t[j + 1] != '\n'
  }

  /** The greedy second `\d+` gives back digits until `(.)(.)` fits: the
      largest `k <= max`, `k >= 1`, with two characters after `start + k`. */
  function Backtrack(t: string, start: nat, max: nat): (k: nat)
    ensures k <= max
    ensures k > 0 ==> TailFits(t, start + k)
  {
    if max == 0 then 0
    else if TailFits(t, start + max) then max
    else Backtrack(t, start, max - 1)
  }

  /** No longer run leaves room for `(.)(.)`. */
  lemma {:induction false} BacktrackLongest(t: string, start: nat, max: nat)
    ensures forall j :: start + Backtrack(t, start, max) < j <= start + max ==> !TailFits(t, j)
  {
    if max > 0 && !TailFits(t, start + max) {
      BacktrackLongest(t, start, max - 1);
    }
  }

  /** `re.match(r"(\d+)\*(\d+)(.)(.)", token)`: anchored at the start only. */
  function MatchSegment(t: string): Option<SegmentMatch>
  {
    var n1 := DigitRun(t, 0);
    if n1 == 0 || n1 >= |t| || t[n1] != '*' then None else MatchAfterStar(t, n1)
  }

  /** The rest of the pattern, once `(\d+)\*` has taken `n1 + 1` characters. */
  function MatchAfterStar(t: string, n1: nat): Option<SegmentMatch>
    requires n1 < |t|
  {
    var k := SecondRun(t, n1);
    if k == 0 then None else Some(GroupsAt(t, n1, k))
  }

  /** The length the second `(\d+)` settles on; 0 when it cannot match. */
  function SecondRun(t: string, n1: nat): (k: nat)
    requires n1 < |t|
    ensures k > 0 ==> TailFits(t, n1 + 1 + k)
  {
    Backtrack(t, n1 + 1, DigitRun(t, n1 + 1))
  }

  /** The groups of a match whose first run has `n1` digits and second `k`. */
  function GroupsAt(t: string, n1: nat, k: nat): SegmentMatch
    requires n1 + k + 3 <= |t|
  {
    SegmentMatch(t[..n1], t[n1 + 1..n1 + 1 + k], t[n1 + 1 + k], t[n1 + 2 + k])
  }

  /** A run of digits that stops at a non-digit (or the end) is what DigitRun counts. */
  lemma {:induction false} DigitRunExact(s: string, from: nat, n: nat)
    requires from + n <= |s|
    requires forall j :: from <= j < from + n ==> IsDigit(s[j])
    requires from + n == |s| || !IsDigit(s[from + n])
    ensures DigitRun(s, from) == n
    decreases n
  {
    if n > 0 {
      DigitRunExact(s, from + 1, n - 1);
    }
  }

  /** A token spelled `<n1 digits>*<k digits><m><c>...`, with the digit runs
      ending where written and neither `m` nor `c` a newline, matches with
      exactly those groups. */
  lemma MatchOf(t: string, n1: nat, k: nat)
    requires 1 <= n1 && 1 <= k && n1 + k + 3 <= |t|
    requires forall j :: 0 <= j < n1 ==> IsDigit(t[j])
    requires t[n1] == '*'
    requires forall j :: n1 + 1 <= j < n1 + 1 + k ==> IsDigit(t[j])
    requires !IsDigit(t[n1 + 1 + k])
    requires t[n1 + 1 + k] != '\n' && t[n1 + 2 + k] != '\n'
    ensures MatchSegment(t) == Some(SegmentMatch(t[..n1], t[n1 + 1..n1 + 1 + k], t[n1 + 1 + k], t[n1 + 2 + k]))
  {
    DigitRunExact(t, 0, n1);
    DigitRunExact(t, n1 + 1, k);
    assert TailFits(t, n1 + 1 + k);
  }

  /** A successful match needs a leading digit, a `*`, and leaves two
      non-newline characters for the last two groups. */
  lemma MatchShape(t: string)
    requires MatchSegment(t).Some?
    ensures |t| >= 5 && IsDigit(t[0]) && t[DigitRun(t, 0)] == '*'
    ensures IsDigit(t[DigitRun(t, 0) + 1])
    ensures MatchSegment(t).value.multiplier != '\n' && MatchSegment(t).value.code != '\n'
  {
    MatchGroups(t);
    DigitRunDigits(t, 0);
    DigitRunDigits(t, DigitRun(t, 0) + 1);
  }

  /** Where the groups of a successful match sit. */
  lemma MatchGroups(t: string)
    requires MatchSegment(t).Some?
    ensures var n1 := DigitRun(t, 0);
      && 1 <= n1 < |t| && t[n1] == '*'
      && var k := SecondRun(t, n1);
      && 1 <= k && TailFits(t, n1 + 1 + k)
      && MatchSegment(t).value.multiplier == t[n1 + 1 + k]
      && MatchSegment(t).value.code == t[n1 + 2 + k]
  {
    var n1 := DigitRun(t, 0);
    MatchStar(t);
    var k := SecondRun(t, n1);
    AfterStarGroups(t, n1);
    GroupsAtChars(t, n1, k);
  }

  /** A match has its `*` right after the first digit run. */
  lemma MatchStar(t: string)
    requires MatchSegment(t).Some?
    ensures 1 <= DigitRun(t, 0) < |t| && t[DigitRun(t, 0)] == '*'
    ensures MatchSegment(t) == MatchAfterStar(t, DigitRun(t, 0))
  {
  }

  /** After the `*`, a match has a second run that leaves room for the last
      two groups. */
  lemma AfterStarGroups(t: string, n1: nat)
    requires n1 < |t| && MatchAfterStar(t, n1).Some?
    ensures 1 <= SecondRun(t, n1) && TailFits(t, n1 + 1 + SecondRun(t, n1))
    ensures MatchAfterStar(t, n1) == Some(GroupsAt(t, n1, SecondRun(t, n1)))
  {
  }

  lemma GroupsAtChars(t: string, n1: nat, k: nat)
    requires n1 + k + 3 <= |t|
    ensures GroupsAt(t, n1, k).multiplier == t[n1 + 1 + k] && GroupsAt(t, n1, k).code == t[n1 + 2 + k]
  {
  }

  /** The match fails exactly when there is no leading digit run followed by
      `*`, or no digits after it leave two non-newline characters. */
  lemma MatchFails(t: string)
    ensures MatchSegment(t).None? <==>
      var n1 := DigitRun(t, 0);
      n1 == 0 || n1 >= |t| || t[n1] != '*' ||
      forall j :: n1 + 2 <= j <= n1 + 1 + DigitRun(t, n1 + 1) ==> !TailFits(t, j)
  {
    var n1 := DigitRun(t, 0);
    if n1 != 0 && n1 < |t| && t[n1] == '*' {
      BacktrackLongest(t, n1 + 1, DigitRun(t, n1 + 1));
    }
  }

  // ---------------------------------------------------------------------------
  // Segments

  /** `page_size` after the multiplier: 'K' is 1024, 'M' is 1024*1024, anything
      else (' ' in the DfuSe string, for bytes) leaves it unchanged. */
  function ScaledPageSize(pageSize: nat, multiplier: char): nat
  {
    if multiplier == 'K' then pageSize * 1024
    else if multiplier == 'M' then pageSize * 1024 * 1024
    else pageSize
  }

  function MakeSegment(addr: int, m: SegmentMatch): Segment
  {
    var numPages := Decimal(m.numPages);
    var pageSize := ScaledPageSize(Decimal(m.pageSize), m.multiplier);
    var size := numPages * pageSize;
    Segment(addr, addr + size - 1, size, numPages, pageSize)
  }

  /** The segments of `tokens`, the first at `addr`, each next one where the
      previous ends; None as soon as a token does not match. */
  function SegmentsFrom(addr: int, tokens: seq<string>): Option<seq<Segment>>
    decreases |tokens|
  {
    if tokens == [] then Some([])
    else
      match MatchSegment(tokens[0])
      case None => None
      case Some(m) =>
        var seg := MakeSegment(addr, m);
        match SegmentsFrom(addr + seg.size, tokens[1..])
        case None => None
        case Some(rest) => Some([seg] + rest)
  }

  /** Both parsers: split on '/', `int(parts[1], 0)` for the base, split
      `parts[2]` on ',' and read one segment per token. `mismatch` is what a
      token that does not match raises (AttributeError in pfu_util, where
      `.groups()` is called on None; AssertionError in pyfu_usb). */
  function ParseLayout(s: string, mismatch: Error): Result<seq<Segment>>
  {
    var parts := Split(s, '/');
    if |parts| < 2 then Err(IndexError)
    else
      match IntBase0(parts[1])
      case None => Err(ValueError("invalid literal for int() with base 0"))
      case Some(base) =>
        if |parts| < 3 then Err(IndexError)
        else
          match SegmentsFrom(base, Split(parts[2], ','))
          case None => Err(mismatch)
          case Some(segs) => Ok(segs)
  }

  /** `acc` in front of a parse of the rest, as a loop that has already
      appended `acc` sees it. */
  function Prepend(acc: seq<Segment>, rest: Option<seq<Segment>>): Option<seq<Segment>>
  {
    match rest
    case None => None
    case Some(r) => Some(acc + r)
  }

  lemma PrependAssoc(a: seq<Segment>, b: seq<Segment>, r: Option<seq<Segment>>)
    ensures Prepend(a, Prepend(b, r)) == Prepend(a + b, r)
  {
    if r.Some? {
      assert a + (b + r.value) == (a + b) + r.value;
    }
  }

  /** One token of the segment loop: a mismatch ends the parse, a match
      contributes one segment and moves the address past it. */
  lemma SegmentsStep(base: int, tokens: seq<string>, i: nat, result: seq<Segment>, addr: int)
    requires i < |tokens|
    requires SegmentsFrom(base, tokens) == Prepend(result, SegmentsFrom(addr, tokens[i..]))
    ensures MatchSegment(tokens[i]).None? ==> SegmentsFrom(base, tokens) == None
    ensures MatchSegment(tokens[i]).Some? ==>
      var seg := MakeSegment(addr, MatchSegment(tokens[i]).value);
      SegmentsFrom(base, tokens) == Prepend(result + [seg], SegmentsFrom(addr + seg.size, tokens[i + 1..]))
  {
    SegmentsFromAt(addr, tokens, i);
    if MatchSegment(tokens[i]).Some? {
      var seg := MakeSegment(addr, MatchSegment(tokens[i]).value);
      PrependStep(SegmentsFrom(base, tokens), result, SegmentsFrom(addr, tokens[i..]), seg,
        SegmentsFrom(addr + seg.size, tokens[i + 1..]));
    }
  }

  lemma SegmentsFromAt(addr: int, tokens: seq<string>, i: nat)
    requires i < |tokens|
    ensures MatchSegment(tokens[i]).None? ==> SegmentsFrom(addr, tokens[i..]) == None
    ensures MatchSegment(tokens[i]).Some? ==>
      var seg := MakeSegment(addr, MatchSegment(tokens[i]).value);
      SegmentsFrom(addr, tokens[i..]) == Prepend([seg], SegmentsFrom(addr + seg.size, tokens[i + 1..]))
  {
    var ts := tokens[i..];
    assert ts[0] == tokens[i] && ts[1..] == tokens[i + 1..];
    SegmentsFromFirst(addr, ts);
  }

  lemma PrependStep(whole: Option<seq<Segment>>, result: seq<Segment>, here: Option<seq<Segment>>, seg: Segment, next: Option<seq<Segment>>)
    requires whole == Prepend(result, here) && here == Prepend([seg], next)
    ensures whole == Prepend(result + [seg], next)
  {
    PrependAssoc(result, [seg], next);
  }

  /** The first token decides: no match, no segments; a match, its segment
      in front of those of the other tokens. */
  lemma SegmentsFromFirst(addr: int, ts: seq<string>)
    requires ts != []
    ensures MatchSegment(ts[0]).None? ==> SegmentsFrom(addr, ts) == None
    ensures MatchSegment(ts[0]).Some? ==>
      var seg := MakeSegment(addr, MatchSegment(ts[0]).value);
      SegmentsFrom(addr, ts) == Prepend([seg], SegmentsFrom(addr + seg.size, ts[1..]))
  {
  }

  /** The loop both parsers run over the comma-separated tokens: match each
      token, scale its page size, append the segment and advance the address.
      None where a token does not match (the caller raises). */
  method ReadSegments(base: int, tokens: seq<string>) returns (r: Option<seq<Segment>>)
    ensures r == SegmentsFrom(base, tokens)
  {
    var addr := base;
    var result: seq<Segment> := [];
    var i := 0;
    PrependNil(SegmentsFrom(base, tokens));
    assert tokens[0..] == tokens;
    while i < |tokens|
      invariant i <= |tokens|
      invariant SegmentsFrom(base, tokens) == Prepend(result, SegmentsFrom(addr, tokens[i..]))
    {
      SegmentsStep(base, tokens, i, result, addr);
      var m := MatchSegment(tokens[i]);
      if m.None? {
        return None;
      }
      var numPages := Decimal(m.value.numPages);
      var pageSize: int := Decimal(m.value.pageSize);
      if m.value.multiplier == 'K' {
        pageSize := pageSize * 1024;
      }
      if m.value.multiplier == 'M' {
        pageSize := pageSize * 1024 * 1024;
      }
      var size: int := numPages * pageSize;
      var lastAddr := addr + size - 1;
      var seg := MakeSegment(addr, m.value);
      assert seg == Segment(addr, lastAddr, size, numPages, pageSize);
      result := result + [seg];
      addr := addr + size;
      i := i + 1;
    }
    assert tokens[i..] == [];
    assert result + [] == result;
    return Some(result);
  }

  /** Both parsers' code: split on '/', read the base with `int(_, 0)`, then
      run the segment loop over the ','-separated tokens. */
  method ReadLayout(s: string, mismatch: Error) returns (r: Result<seq<Segment>>)
    ensures r == ParseLayout(s, mismatch)
  {
    var parts := Split(s, '/');
    if |parts| < 2 {
      return Err(IndexError);
    }
    var base := IntBase0(parts[1]);
    if base.None? {
      return Err(ValueError("invalid literal for int() with base 0"));
    }
    if |parts| < 3 {
      return Err(IndexError);
    }
    var segments := ReadSegments(base.value, Split(parts[2], ','));
    if segments.None? {
      return Err(mismatch);
    }
    return Ok(segments.value);
  }

  lemma PrependNil(r: Option<seq<Segment>>)
    ensures Prepend([], r) == r
  {
    if r.Some? {
      assert [] + r.value == r.value;
    }
  }

  /** Every segment is `num_pages * page_size` bytes, ends at `addr + size - 1`,
      the first starts at the base and each next one right after the previous;
      there is one segment per token. */
  lemma {:induction false} SegmentsContiguous(addr: int, tokens: seq<string>)
    requires SegmentsFrom(addr, tokens).Some?
    decreases |tokens|
    ensures var segs := SegmentsFrom(addr, tokens).value;
      && |segs| == |tokens|
      && (|segs| > 0 ==> segs[0].addr == addr)
      && (forall i :: 0 <= i < |segs| ==>
            segs[i].size == segs[i].numPages * segs[i].pageSize
            && segs[i].lastAddr == segs[i].addr + segs[i].size - 1)
      && (forall i :: 0 < i < |segs| ==> segs[i].addr == segs[i - 1].lastAddr + 1)
  {
    if tokens != [] {
      var m := MatchSegment(tokens[0]).value;
      var seg := MakeSegment(addr, m);
      SegmentsContiguous(addr + seg.size, tokens[1..]);
    }
  }

  /** A layout that parses has a segment per ','-separated token of its
      third '/'-field, the first at the base its second field names, each
      next one right after the previous. */
  lemma LayoutContiguous(s: string, mismatch: Error)
    requires ParseLayout(s, mismatch).Ok?
    ensures var parts := Split(s, '/');
      var segs := ParseLayout(s, mismatch).value;
      && |parts| >= 3 && IntBase0(parts[1]).Some?
      && |segs| == |Split(parts[2], ',')| && segs != []
      && segs[0].addr == IntBase0(parts[1]).value
      && (forall i :: 0 <= i < |segs| ==> segs[i].lastAddr == segs[i].addr + segs[i].size - 1)
      && (forall i :: 0 < i < |segs| ==> segs[i].addr == segs[i - 1].lastAddr + 1)
  {
    var parts := Split(s, '/');
    SegmentsContiguous(IntBase0(parts[1]).value, Split(parts[2], ','));
  }

  /** A token list parses exactly when every token matches. */
  lemma {:induction false} SegmentsMatchTokens(addr: int, tokens: seq<string>)
    decreases |tokens|
    ensures SegmentsFrom(addr, tokens).Some? <==> forall i :: 0 <= i < |tokens| ==> MatchSegment(tokens[i]).Some?
  {
    if tokens != [] {
      var m := MatchSegment(tokens[0]);
      if m.Some? {
        SegmentsMatchTokens(addr + MakeSegment(addr, m.value).size, tokens[1..]);
        assert forall i :: 1 <= i < |tokens| ==> tokens[i] == tokens[1..][i - 1];
      }
    }
  }

  /** Each segment's numbers are the ones its token's match reads, the page
      size scaled by the multiplier. */
  lemma {:induction false} SegmentsReadTokens(addr: int, tokens: seq<string>)
    requires SegmentsFrom(addr, tokens).Some?
    decreases |tokens|
    ensures |SegmentsFrom(addr, tokens).value| == |tokens|
    ensures forall i :: 0 <= i < |tokens| ==>
      MatchSegment(tokens[i]).Some? &&
      var m := MatchSegment(tokens[i]).value;
      var seg := SegmentsFrom(addr, tokens).value[i];
      seg.numPages == Decimal(m.numPages) && seg.pageSize == ScaledPageSize(Decimal(m.pageSize), m.multiplier)
  {
    if tokens != [] {
      var seg := MakeSegment(addr, MatchSegment(tokens[0]).value);
      var rest := SegmentsFrom(addr + seg.size, tokens[1..]).value;
      SegmentsReadTokens(addr + seg.size, tokens[1..]);
      assert SegmentsFrom(addr, tokens).value == [seg] + rest;
      forall i | 1 <= i < |tokens|
        ensures SegmentsFrom(addr, tokens).value[i] == rest[i - 1] && tokens[i] == tokens[1..][i - 1]
      {
      }
    }
  }

  /** On plain decimal digits, the two readings of a number agree:
      `DigitsValue` (which also accepts underscores) and `Decimal`. */
  lemma {:induction false} DigitsValueDecimal(s: string)
    requires s != [] && forall j :: 0 <= j < |s| ==> IsDigit(s[j])
    ensures DigitsValue(s, 10) == Some(Decimal(s))
    decreases |s|
  {
    if |s| == 1 {
      assert s[..0] == [];
    } else {
      DigitsValueDecimal(s[..|s| - 1]);
    }
  }

  /** `int(s, 0)` of a decimal numeral without a leading zero is its value. */
  lemma IntBase0Decimal(s: string)
    requires s != [] && s[0] != '0' && forall j :: 0 <= j < |s| ==> IsDigit(s[j])
    ensures IntBase0(s) == Some(Decimal(s) as int)
  {
    StripDigits(s);
    IntBase0Unsigned(s);
    DigitsValueDecimal(s);
    SignedPositive(IntBase0(s), DigitsValue(s, 10), Decimal(s));
  }

  lemma SignedPositive(x: Option<int>, v: Option<nat>, n: nat)
    requires x == Signed(false, v) && v == Some(n)
    ensures x == Some(n as int)
  {
  }

  lemma StripDigits(s: string)
    requires s != [] && forall j :: 0 <= j < |s| ==> IsDigit(s[j])
    ensures StripRight(StripLeft(s)) == s
  {
    assert StripLeft(s) == s;
    assert StripRight(s) == s;
  }

  /** Text that needs no stripping and starts with a digit other than 0 is
      read as a plain decimal numeral. */
  lemma IntBase0Unsigned(s: string)
    requires s != [] && s[0] != '0' && IsDigit(s[0]) && StripRight(StripLeft(s)) == s
    ensures IntBase0(s) == Signed(false, DigitsValue(s, 10))
  {
  }

  /** Three separator-free pieces joined by the separator split back apart. */
  lemma SplitThree(a: string, b: string, c: string, sep: char)
    requires sep !in a && sep !in b && sep !in c
    ensures Split(a + [sep] + b + [sep] + c, sep) == [a, b, c]
  {
    var parts := [a, b, c];
    assert parts[1..] == [b, c] && parts[1..][1..] == [c];
    assert Join(parts[1..], sep) == b + [sep] + c;
    assert Join(parts, sep) == a + [sep] + b + [sep] + c;
    SplitJoin(parts, sep);
  }

  /** The STM32F2 tokens laid out from 0x08000000: four 16 KiB sectors,
      one of 64 KiB and seven of 128 KiB, each starting where the previous ends. */
  lemma ExampleSegments(t1: string, t2: string, t3: string)
    requires t1 == "04*016Kg" && t2 == "01*064Kg" && t3 == "07*128Kg"
    ensures SegmentsFrom(0x0800_0000, [t1, t2, t3]) == Some([
      Segment(0x0800_0000, 0x0800_FFFF, 65536, 4, 16384),
      Segment(0x0801_0000, 0x0801_FFFF, 65536, 1, 65536),
      Segment(0x0802_0000, 0x080F_FFFF, 917504, 7, 131072)])
  {
    TokenValues(t1, '0', '4', '0', '1', '6', 4, 16);
    TokenValues(t2, '0', '1', '0', '6', '4', 1, 64);
    TokenValues(t3, '0', '7', '1', '2', '8', 7, 128);
    SegmentsOfMatches(t1, t2, t3, MatchSegment(t1).value, MatchSegment(t2).value, MatchSegment(t3).value);
  }

  /** A KiB token `<2 digits>*<3 digits>K<c>` matches, and its groups read as
      the two numbers. */
  lemma TokenValues(t: string, a: char, b: char, c: char, d: char, e: char, n: nat, p: nat)
    requires t == [a, b, '*', c, d, e, 'K', 'g']
    requires IsDigit(a) && IsDigit(b) && IsDigit(c) && IsDigit(d) && IsDigit(e)
    requires n == 10 * DigitValue(a) + DigitValue(b) && p == 100 * DigitValue(c) + 10 * DigitValue(d) + DigitValue(e)
    ensures MatchSegment(t).Some? && MatchSegment(t).value.multiplier == 'K'
    ensures Decimal(MatchSegment(t).value.numPages) == n && Decimal(MatchSegment(t).value.pageSize) == p
  {
    TokenMatch(t, a, b, c, d, e, 'K', 'g');
  }

  lemma SegmentsOfMatches(t1: string, t2: string, t3: string, m1: SegmentMatch, m2: SegmentMatch, m3: SegmentMatch)
    requires MatchSegment(t1) == Some(m1) && Decimal(m1.numPages) == 4 && Decimal(m1.pageSize) == 16 && m1.multiplier == 'K'
    requires MatchSegment(t2) == Some(m2) && Decimal(m2.numPages) == 1 && Decimal(m2.pageSize) == 64 && m2.multiplier == 'K'
    requires MatchSegment(t3) == Some(m3) && Decimal(m3.numPages) == 7 && Decimal(m3.pageSize) == 128 && m3.multiplier == 'K'
    ensures SegmentsFrom(0x0800_0000, [t1, t2, t3]) == Some([
      Segment(0x0800_0000, 0x0800_FFFF, 65536, 4, 16384),
      Segment(0x0801_0000, 0x0801_FFFF, 65536, 1, 65536),
      Segment(0x0802_0000, 0x080F_FFFF, 917504, 7, 131072)])
  {
    var s3 := Segment(0x0802_0000, 0x080F_FFFF, 917504, 7, 131072);
    SegmentsFromCons(0x0802_0000, t3, [], m3);
    assert [t3] + [] == [t3];
    assert [s3] + [] == [s3];
    assert SegmentsFrom(0x0802_0000, [t3]) == Some([s3]);
    var s2 := Segment(0x0801_0000, 0x0801_FFFF, 65536, 1, 65536);
    SegmentsFromCons(0x0801_0000, t2, [t3], m2);
    assert [t2] + [t3] == [t2, t3];
    assert MakeSegment(0x0801_0000, m2) == s2;
    assert [s2] + [s3] == [s2, s3];
    assert SegmentsFrom(0x0801_0000, [t2, t3]) == Some([s2, s3]);
    var s1 := Segment(0x0800_0000, 0x0800_FFFF, 65536, 4, 16384);
    SegmentsFromCons(0x0800_0000, t1, [t2, t3], m1);
    assert MakeSegment(0x0800_0000, m1) == s1;
    assert [t1] + [t2, t3] == [t1, t2, t3];
    assert [s1] + [s2, s3] == [s1, s2, s3];
  }

  /** The STM32F2 layout string, read end to end: split on '/', the base in
      hexadecimal, then the three tokens split on ',' and laid out from it. */
  lemma ExampleLayout(s: string, mismatch: Error)
    requires s == "/0x08000000/04*016Kg,01*064Kg,07*128Kg"
    ensures ParseLayout(s, mismatch) == Ok([
      Segment(0x0800_0000, 0x0800_FFFF, 65536, 4, 16384),
      Segment(0x0801_0000, 0x0801_FFFF, 65536, 1, 65536),
      Segment(0x0802_0000, 0x080F_FFFF, 917504, 7, 131072)])
  {
    var b, t1, t2, t3 := "0x08000000", "04*016Kg", "01*064Kg", "07*128Kg";
    ExampleLiteral(s, b, t1, t2, t3);
    ExampleBase(b);
    ExampleSegments(t1, t2, t3);
    LayoutOfPieces(s, b, t1, t2, t3, mismatch);
  }

  /** A layout string built from a base and three tokens parses to the
      tokens' segments from that base. */
  lemma LayoutOfPieces(s: string, b: string, t1: string, t2: string, t3: string, mismatch: Error)
    requires s == [] + ['/'] + b + ['/'] + (t1 + [','] + t2 + [','] + t3)
    requires '/' !in b && '/' !in t1 + [','] + t2 + [','] + t3
    requires ',' !in t1 && ',' !in t2 && ',' !in t3
    requires IntBase0(b).Some? && SegmentsFrom(IntBase0(b).value, [t1, t2, t3]).Some?
    ensures ParseLayout(s, mismatch) == Ok(SegmentsFrom(IntBase0(b).value, [t1, t2, t3]).value)
  {
    SplitThree([], b, t1 + [','] + t2 + [','] + t3, '/');
    SplitThree(t1, t2, t3, ',');
  }

  /** The layout string is its pieces joined by '/' and ','. */
  lemma ExampleLiteral(s: string, b: string, t1: string, t2: string, t3: string)
    requires s == "/0x08000000/04*016Kg,01*064Kg,07*128Kg"
    requires b == "0x08000000" && t1 == "04*016Kg" && t2 == "01*064Kg" && t3 == "07*128Kg"
    ensures s == [] + ['/'] + b + ['/'] + (t1 + [','] + t2 + [','] + t3)
    ensures '/' !in b && '/' !in t1 + [','] + t2 + [','] + t3
    ensures ',' !in t1 && ',' !in t2 && ',' !in t3
  {
    var h, c := "/0x08000000/", "04*016Kg,01*064Kg,07*128Kg";
    LiteralHalves(s, h, c);
    LiteralHead(h, b);
    LiteralTokens(c, t1, t2, t3);
  }

  lemma LiteralHalves(s: string, h: string, c: string)
    requires s == "/0x08000000/04*016Kg,01*064Kg,07*128Kg" && h == "/0x08000000/" && c == "04*016Kg,01*064Kg,07*128Kg"
    ensures s == h + c
  {
  }

  lemma LiteralHead(h: string, b: string)
    requires h == "/0x08000000/" && b == "0x08000000"
    ensures h == [] + ['/'] + b + ['/']
  {
  }

  lemma LiteralTokens(c: string, t1: string, t2: string, t3: string)
    requires c == "04*016Kg,01*064Kg,07*128Kg" && t1 == "04*016Kg" && t2 == "01*064Kg" && t3 == "07*128Kg"
    ensures c == t1 + [','] + t2 + [','] + t3
  {
  }

  lemma SegmentsFromCons(addr: int, t: string, rest: seq<string>, m: SegmentMatch)
    requires MatchSegment(t) == Some(m)
    ensures SegmentsFrom(addr, [t] + rest) == Prepend([MakeSegment(addr, m)], SegmentsFrom(addr + MakeSegment(addr, m).size, rest))
  {
    assert ([t] + rest)[1..] == rest;
  }

  /** The STM32F2 base address reads as hexadecimal. */
  lemma ExampleBase(t: string)
    requires t == "0x08000000"
    ensures IntBase0(t) == Some(0x0800_0000)
  {
    assert StripLeft(t) == t;
    assert StripRight(t) == t;
    ExampleHexDigits(t[2..]);
  }

  lemma ExampleHexDigits(d: string)
    requires d == "08000000"
    ensures AfterPrefix(d, 16) == Some(0x0800_0000)
  {
    var x := "0";
    assert DigitsValue(x, 16) == Some(0);
    DigitsValueSnoc(x, '8', 16);
    x := x + ['8'];
    DigitsValueSnoc(x, '0', 16);
    x := x + ['0'];
    DigitsValueSnoc(x, '0', 16);
    x := x + ['0'];
    DigitsValueSnoc(x, '0', 16);
    x := x + ['0'];
    DigitsValueSnoc(x, '0', 16);
    x := x + ['0'];
    DigitsValueSnoc(x, '0', 16);
    x := x + ['0'];
    DigitsValueSnoc(x, '0', 16);
    x := x + ['0'];
    assert x == d;
  }

  /** One more digit multiplies by the base and adds the digit. */
  lemma DigitsValueSnoc(s: string, c: char, base: nat)
    requires base <= 36 && DigitsValue(s, base).Some? && DigitValue(c) < base
    ensures DigitsValue(s + [c], base) == Some(DigitsValue(s, base).value * base + DigitValue(c))
  {
    assert (s + [c])[..|s|] == s;
  }

  /** A token `<2 digits>*<3 digits><m><c>` (the shape of the STM32F2
      tokens) matches with those groups, read as decimal numbers. */
  lemma TokenMatch(t: string, a: char, b: char, c: char, d: char, e: char, m: char, code: char)
    requires t == [a, b, '*', c, d, e, m, code]
    requires IsDigit(a) && IsDigit(b) && IsDigit(c) && IsDigit(d) && IsDigit(e)
    requires !IsDigit(m) && m != '\n' && code != '\n'
    ensures MatchSegment(t) == Some(SegmentMatch([a, b], [c, d, e], m, code))
    ensures Decimal([a, b]) == 10 * DigitValue(a) + DigitValue(b)
    ensures Decimal([c, d, e]) == 100 * DigitValue(c) + 10 * DigitValue(d) + DigitValue(e)
  {
    MatchOf(t, 2, 3);
    assert t[..2] == [a, b] && t[3..6] == [c, d, e];
    Decimal2(a, b);
    Decimal2(c, d);
    assert [c, d, e][..2] == [c, d];
  }

  lemma Decimal2(a: char, b: char)
    ensures Decimal([a, b]) == 10 * DigitValue(a) + DigitValue(b)
  {
    assert [a, b][..1] == [a] && [a][..0] == [];
    assert Decimal([a]) == 10 * Decimal([]) + DigitValue(a);
  }
}
