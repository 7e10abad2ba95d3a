/** The memo text each benchmark transaction carries, the random test identifier
    embedded in it, and the parser the confirmation listener applies to every
    log line (main.go: the payload format string of `SendTransactions`, the test
    identifier generation in `main`, and the pattern `memobench:.*?(\d+).*\[(.*?)\]`
    matched in `WebsocketListener.Start`). */
module Memo {
  import opened Wrappers

  /** An 8-bit value: one byte of a signature or of the random test identifier. */
  newtype Byte = x: int | 0 <= x < 256

  /** The literal every benchmark memo starts with and the pattern anchors on. */
  const Marker: string := "memobench:"

  predicate IsDigit(c: char) { '0' <= c <= '9' }

  predicate IsLowerHex(c: char) { IsDigit(c) || 'a' <= c <= 'f' }

  predicate AllDigits(s: string)
  {
    forall i :: 0 <= i < |s| ==> IsDigit(s[i])
  }

  // ---------------------------------------------------------------------------
  // Decimal numbers (`%d`)
  // ---------------------------------------------------------------------------

  function DigitChar(d: nat): (c: char)
    requires d < 10
    ensures IsDigit(c)
  {
    ('0' as int + d) as char
  }

  function DigitValue(c: char): (d: nat)
    requires IsDigit(c)
    ensures d < 10 && DigitChar(d) == c
  {
    c as int - '0' as int
  }

  /** Go's `%d` formatting of `n`: its shortest decimal numeral. */
  function Decimal(n: nat): (r: string)
    ensures |r| > 0 && AllDigits(r)
    ensures r[0] == '0' <==> n == 0
  {
    if n < 10 then [DigitChar(n)] else Decimal(n / 10) + [DigitChar(n % 10)]
  }

  /** The value of a numeral: the reference `Decimal` is checked against. */
  function NumeralValue(s: string): nat
    requires AllDigits(s)
    decreases |s|
  {
    if |s| == 0 then 0 else 10 * NumeralValue(s[..|s| - 1]) + DigitValue(s[|s| - 1])
  }

  /** The numeral written for a sequence number reads back as that number. */
  lemma {:induction false} DecimalRoundTrip(n: nat)
    ensures NumeralValue(Decimal(n)) == n
  {
    if n >= 10 {
      var s := Decimal(n);
      assert s[..|s| - 1] == Decimal(n / 10);
      DecimalRoundTrip(n / 10);
      assert DigitValue(DigitChar(n % 10)) == n % 10;
    } else {
      assert DigitValue(DigitChar(n)) == n;
    }
  }

  // ---------------------------------------------------------------------------
  // The test identifier (`hex.EncodeToString` of 4 random bytes)
  // ---------------------------------------------------------------------------

  function HexDigit(v: nat): (c: char)
    requires v < 16
    ensures IsLowerHex(c)
  {
    if v < 10 then DigitChar(v) else ('a' as int + (v - 10)) as char
  }

  function HexValue(c: char): (v: nat)
    requires IsLowerHex(c)
    ensures v < 16 && HexDigit(v) == c
  {
    if IsDigit(c) then DigitValue(c) else c as int - 'a' as int + 10
  }

  /** `hex.EncodeToString`: two lower-case hex digits per byte, high nibble first. */
  function HexEncode(bytes: seq<Byte>): (r: string)
    ensures |r| == 2 * |bytes|
    ensures forall i :: 0 <= i < |r| ==> IsLowerHex(r[i])
  {
    if |bytes| == 0 then []
    else [HexDigit(bytes[0] as nat / 16), HexDigit(bytes[0] as nat % 16)] + HexEncode(bytes[1..])
  }

  /** Reads a lower-case hex string back into bytes: the inverse `HexEncode` is checked against. */
  function HexDecode(s: string): (r: seq<Byte>)
    requires |s| % 2 == 0
    requires forall i :: 0 <= i < |s| ==> IsLowerHex(s[i])
    decreases |s|
  {
    if |s| == 0 then []
    else [(16 * HexValue(s[0]) + HexValue(s[1])) as Byte] + HexDecode(s[2..])
  }

  /** Hex encoding loses nothing: distinct random bytes give distinct test identifiers. */
  lemma {:induction false} HexRoundTrip(bytes: seq<Byte>)
    ensures HexDecode(HexEncode(bytes)) == bytes
  {
    if |bytes| > 0 {
      var b := bytes[0] as nat;
      var s := HexEncode(bytes);
      assert s[2..] == HexEncode(bytes[1..]);
      HexRoundTrip(bytes[1..]);
      assert HexValue(HexDigit(b / 16)) == b / 16;
      assert HexValue(HexDigit(b % 16)) == b % 16;
      assert [bytes[0]] + bytes[1..] == bytes;
    }
  }

  /** The shape of a test identifier: eight lower-case hex digits. */
  predicate IsTestId(s: string)
  {
    |s| == 8 && forall i :: 0 <= i < |s| ==> IsLowerHex(s[i])
  }

  /** The run's test identifier, from the 4 random bytes drawn at start-up. */
  function NewTestId(random: seq<Byte>): (id: string)
    requires |random| == 4
    ensures IsTestId(id)
    ensures HexDecode(id) == random
  {
    HexRoundTrip(random);
    HexEncode(random)
  }

  // ---------------------------------------------------------------------------
  // The memo payload and its parser
  // ---------------------------------------------------------------------------

  /** The memo of the transaction with sequence number `id`:
      `memobench: Test <id> [<testId>]`. */
  function Payload(id: nat, testId: string): string
  {
    "memobench: Test " + Decimal(id) + " [" + testId + "]"
  }

  /** The layout of a memo: it opens with the marker, then the numeral of
      `id`, and closes with the test identifier in brackets, with nothing
      after the closing bracket. */
  lemma PayloadShape(id: nat, testId: string)
    ensures var p := Payload(id, testId);
            && |p| == |Marker| + |" Test "| + |Decimal(id)| + |" ["| + |testId| + |"]"|
            && MarkerAt(p, 0)
            && p[|Marker| + |" Test "|..|Marker| + |" Test "| + |Decimal(id)|] == Decimal(id)
            && p[|p| - |testId| - 2] == '['
            && p[|p| - |testId| - 1..|p| - 1] == testId
            && p[|p| - 1] == ']'
  {
    var p := Payload(id, testId);
    var n := |Marker| + |" Test "|;
    assert p == Marker + " Test " + Decimal(id) + " [" + testId + "]";
    assert p[..|Marker|] == Marker;
    assert p[n..n + |Decimal(id)|] == Decimal(id);
    assert p[|p| - |testId| - 1..|p| - 1] == testId;
  }

  /** The two capture groups of a successful match. */
  datatype Capture = Capture(num: string, id: string)

  /** The marker literal occurs at index `i`. */
  predicate MarkerAt(line: string, i: nat)
  {
    i + |Marker| <= |line| && forall k :: 0 <= k < |Marker| ==> line[i + k] == Marker[k]
  }

  /** The first occurrence of the marker at or after `from`. */
  function FindMarker(line: string, from: nat): (r: Option<nat>)
    ensures r.Some? ==> from <= r.value && MarkerAt(line, r.value)
    ensures r.Some? ==> forall i: nat :: from <= i < r.value ==> !MarkerAt(line, i)
    ensures r.None? ==> forall i: nat :: from <= i ==> !MarkerAt(line, i)
    decreases |line| - from
  {
    if from + |Marker| > |line| then None
    else if MarkerAt(line, from) then Some(from)
    else FindMarker(line, from + 1)
  }

  /** The first index in `[from, end)` holding `c`. */
  function FindChar(line: string, c: char, from: nat, end: nat): (r: Option<nat>)
    requires from <= end <= |line|
    ensures r.Some? ==> from <= r.value < end && line[r.value] == c
    ensures r.Some? ==> forall k :: from <= k < r.value ==> line[k] != c
    ensures r.None? ==> forall k :: from <= k < end ==> line[k] != c
    decreases end - from
  {
    if from == end then None
    else if line[from] == c then Some(from)
    else FindChar(line, c, from + 1, end)
  }

  /** Where the line containing index `from` ends: the next newline, or the end
      of the text. The pattern's `.` does not match a newline. */
  function LineEnd(line: string, from: nat): (r: nat)
    requires from <= |line|
    ensures from <= r <= |line|
    ensures forall k :: from <= k < r ==> line[k] != '\n'
    ensures r < |line| ==> line[r] == '\n'
  {
    match FindChar(line, '\n', from, |line|)
    case Some(k) => k
    case None => |line|
  }

  /** The first decimal digit in `[from, end)`: what the lazy `.*?` before `(\d+)` reaches. */
  function FirstDigit(line: string, from: nat, end: nat): (r: Option<nat>)
    requires from <= end <= |line|
    ensures r.Some? ==> from <= r.value < end && IsDigit(line[r.value])
    ensures r.Some? ==> forall k :: from <= k < r.value ==> !IsDigit(line[k])
    ensures r.None? ==> forall k :: from <= k < end ==> !IsDigit(line[k])
    decreases end - from
  {
    if from == end then None
    else if IsDigit(line[from]) then Some(from)
    else FirstDigit(line, from + 1, end)
  }

  /** The end of the longest digit run starting at `k`: what the greedy `(\d+)` takes. */
  function DigitRunEnd(line: string, k: nat, end: nat): (e: nat)
    requires k <= end <= |line|
    ensures k <= e <= end
    ensures forall j :: k <= j < e ==> IsDigit(line[j])
    ensures e < end ==> !IsDigit(line[e])
    decreases end - k
  {
    if k == end || !IsDigit(line[k]) then k else DigitRunEnd(line, k + 1, end)
  }

  /** A `[` at `p` closed by some `]` before `end`. */
  predicate Opens(line: string, p: nat, end: nat)
    requires p < end <= |line|
  {
    line[p] == '[' && FindChar(line, ']', p + 1, end).Some?
  }

  /** The last `[` in `[lo, hi)` that is closed before `end`: where the greedy
      `.*` before `\[` stops. */
  function LastOpen(line: string, lo: nat, hi: nat, end: nat): (r: Option<nat>)
    requires lo <= hi <= end <= |line|
    ensures r.Some? ==> lo <= r.value < hi && Opens(line, r.value, end)
    ensures r.Some? ==> forall q: nat :: r.value < q < hi ==> !Opens(line, q, end)
    ensures r.None? ==> forall q: nat :: lo <= q < hi ==> !Opens(line, q, end)
    decreases hi - lo
  {
    if hi == lo then None
    else if Opens(line, hi - 1, end) then Some(hi - 1)
    else LastOpen(line, lo, hi - 1, end)
  }

  /** The match the pattern finds when it starts at the marker occurrence `m`,
      if any. Capture 1 is the first digit run after the marker; capture 2 runs
      from the last closed `[` after it to the first `]` that closes it; all of
      it on the marker's line. */
  function MatchAt(line: string, m: nat): (r: Option<Capture>)
    requires MarkerAt(line, m)
    ensures r.Some? ==> |r.value.num| > 0 && AllDigits(r.value.num)
    ensures r.Some? ==> ']' !in r.value.id && '\n' !in r.value.id
  {
    var start := m + |Marker|;
    var end := LineEnd(line, start);
    match FirstDigit(line, start, end)
    case None => None
    case Some(k) =>
      var e := DigitRunEnd(line, k, end);
      match LastOpen(line, e, end, end)
      case None => None
      case Some(p) =>
        match FindChar(line, ']', p + 1, end)
        case None => None
        case Some(q) =>
          CaptureFree(line, p + 1, q, end);
          Some(Capture(line[k..e], line[p + 1..q]))
  }

  /** A slice that stays on one line and before the first `]` holds neither. */
  lemma CaptureFree(line: string, lo: nat, q: nat, end: nat)
    requires lo <= q <= end <= |line|
    requires forall j :: lo <= j < q ==> line[j] != ']'
    requires forall j :: lo <= j < end ==> line[j] != '\n'
    ensures ']' !in line[lo..q] && '\n' !in line[lo..q]
  {
    var id := line[lo..q];
    assert forall j :: 0 <= j < |id| ==> id[j] == line[lo + j];
  }

  /** Leftmost-first search: try the marker occurrences from `from` on, in order,
      and return the first that starts a match. */
  function ParseFrom(line: string, from: nat): (r: Option<Capture>)
    ensures r.Some? ==> |r.value.num| > 0 && AllDigits(r.value.num)
    ensures r.Some? ==> ']' !in r.value.id && '\n' !in r.value.id
    ensures (forall i: nat :: from <= i ==> !MarkerAt(line, i)) ==> r.None?
    decreases |line| - from, 1
  {
    match FindMarker(line, from)
    case None => None
    case Some(m) => TryMarker(line, m)
  }

  /** One round of the search at the marker occurrence `m`: its match, or else
      the search from just past it. */
  function TryMarker(line: string, m: nat): (r: Option<Capture>)
    requires MarkerAt(line, m)
    ensures r.Some? ==> |r.value.num| > 0 && AllDigits(r.value.num)
    ensures r.Some? ==> ']' !in r.value.id && '\n' !in r.value.id
    decreases |line| - m, 0
  {
    var r := MatchAt(line, m);
    if r.Some? then r else ParseFrom(line, m + 1)
  }

  /** The search is leftmost-first: there is no match exactly when no marker
      occurrence from `from` on starts one; otherwise the result is the match
      at a marker occurrence before which none started a match. */
  lemma ParseFromFirst(line: string, from: nat)
    ensures ParseFrom(line, from).None? ==> forall m: nat :: from <= m && MarkerAt(line, m) ==> MatchAt(line, m).None?
    ensures ParseFrom(line, from).Some? ==>
              exists m: nat :: from <= m && MarkerAt(line, m) && ParseFrom(line, from) == MatchAt(line, m) && NoMatchBetween(line, from, m)
  {
    if ParseFrom(line, from).None? {
      ParseFromNone(line, from);
    } else {
      var k := ParseFromSome(line, from);
    }
  }

  /** Without a match, no marker occurrence from `from` on starts one (an
      occurrence cannot start past the end of the line). */
  lemma {:induction false} ParseFromNone(line: string, from: nat)
    requires ParseFrom(line, from).None?
    ensures NoMatchBetween(line, from, |line| + 1)
    decreases |line| - from
  {
    match FindMarker(line, from)
    case None =>
    case Some(m) =>
      assert ParseFrom(line, from) == TryMarker(line, m);
      TryMarkerSplit(line, m);
      ParseFromNone(line, m + 1);
      NoMatchExtends(line, from, m, |line| + 1);
  }

  /** A match is the one at some marker occurrence before which none started
      a match. */
  lemma {:induction false} ParseFromSome(line: string, from: nat) returns (k: nat)
    requires ParseFrom(line, from).Some?
    ensures from <= k && MarkerAt(line, k) && ParseFrom(line, from) == MatchAt(line, k) && NoMatchBetween(line, from, k)
    decreases |line| - from, 1
  {
    ParseFromEnter(line, from);
    var m := FindMarker(line, from).value;
    TryMarkerSplit(line, m);
    if MatchAt(line, m).Some? {
      k := m;
    } else {
      k := ParseFromSkip(line, from, m);
    }
  }

  /** The recursive case of `ParseFromSome`: the first marker occurrence `m`
      starts no match, so the match is found past it. */
  lemma {:induction false} ParseFromSkip(line: string, from: nat, m: nat) returns (k: nat)
    requires FindMarker(line, from) == Some(m)
    requires MatchAt(line, m).None?
    requires ParseFrom(line, from) == ParseFrom(line, m + 1)
    requires ParseFrom(line, m + 1).Some?
    ensures from <= k && MarkerAt(line, k) && ParseFrom(line, from) == MatchAt(line, k) && NoMatchBetween(line, from, k)
    decreases |line| - from, 0
  {
    k := ParseFromSome(line, m + 1);
    NoMatchExtends(line, from, m, k);
  }

  /** A search that finds a match found a marker occurrence and is the round
      of the search there. */
  lemma ParseFromEnter(line: string, from: nat)
    requires ParseFrom(line, from).Some?
    ensures FindMarker(line, from).Some?
    ensures ParseFrom(line, from) == TryMarker(line, FindMarker(line, from).value)
  {
  }

  /** A round of the search ends at its marker occurrence when that starts a
      match, and otherwise goes on past it. */
  lemma TryMarkerSplit(line: string, m: nat)
    requires MarkerAt(line, m)
    ensures MatchAt(line, m).Some? ==> TryMarker(line, m) == MatchAt(line, m)
    ensures MatchAt(line, m).None? ==> TryMarker(line, m) == ParseFrom(line, m + 1)
  {
  }

  /** A marker-free stretch, then a marker without a match, then a stretch
      without matches: together they hold no match. */
  lemma NoMatchExtends(line: string, from: nat, m: nat, k: nat)
    requires from <= m < k
    requires forall i: nat :: from <= i < m ==> !MarkerAt(line, i)
    requires MarkerAt(line, m) && MatchAt(line, m).None?
    requires NoMatchBetween(line, m + 1, k)
    ensures NoMatchBetween(line, from, k)
  {
    forall j: nat | from <= j < k && MarkerAt(line, j)
      ensures MatchAt(line, j).None?
    {
      if j > m {
        assert m + 1 <= j;
      }
    }
  }

  /** No marker occurrence in `[from, to)` starts a match. */
  predicate NoMatchBetween(line: string, from: nat, to: nat)
  {
    forall j: nat :: from <= j < to && MarkerAt(line, j) ==> MatchAt(line, j).None?
  }

  /** `re.FindStringSubmatch(line)` with the listener's pattern, as the pair of
      captures. A line without the marker never matches; a match always has a
      non-empty digit run and an identifier free of `]` and of line breaks. */
  function ParseMemo(line: string): (r: Option<Capture>)
    ensures r.Some? ==> |r.value.num| > 0 && AllDigits(r.value.num)
    ensures r.Some? ==> ']' !in r.value.id && '\n' !in r.value.id
    ensures (forall i: nat :: !MarkerAt(line, i)) ==> r.None?
  {
    ParseFrom(line, 0)
  }

  // ---------------------------------------------------------------------------
  // Round trip: a log line carrying a payload parses back to its captures
  // ---------------------------------------------------------------------------

  /** `line` is `prefix + Payload(id, testId) + suffix`, with the marker at `P`,
      the numeral in `[P + 16, e)`, the `[` at `o` and the `]` at `q`. */
  predicate PayloadAt(line: string, prefix: string, id: nat, testId: string, suffix: string,
                      P: nat, e: nat, o: nat, q: nat)
  {
    && line == prefix + Payload(id, testId) + suffix
    && P == |prefix|
    && e == P + 16 + |Decimal(id)|
    && o == e + 1
    && q == o + 1 + |testId|
  }

  /** A payload line, written as one right-nested concatenation. */
  lemma PayloadNest(line: string, prefix: string, id: nat, testId: string, suffix: string,
                    P: nat, e: nat, o: nat, q: nat)
    requires PayloadAt(line, prefix, id, testId, suffix, P, e, o, q)
    ensures line == prefix + ("memobench: Test " + (Decimal(id) + (" [" + (testId + ("]" + suffix)))))
  {
  }

  /** Where the prefix, the fixed lead and the numeral of a payload line sit. */
  lemma LayoutHead(line: string, prefix: string, id: nat, testId: string, suffix: string,
                   P: nat, e: nat, o: nat, q: nat)
    requires PayloadAt(line, prefix, id, testId, suffix, P, e, o, q)
    ensures line[..P] == prefix
    ensures line[P..P + 16] == "memobench: Test "
    ensures line[P + 16..e] == Decimal(id)
  {
    PayloadNest(line, prefix, id, testId, suffix, P, e, o, q);
    var t2 := Decimal(id) + (" [" + (testId + ("]" + suffix)));
    var t1 := "memobench: Test " + t2;
    assert line[P..] == t1;
    assert line[P + 16..] == t2;
  }

  /** Where the brackets, the identifier and the suffix of a payload line sit. */
  lemma LayoutTail(line: string, prefix: string, id: nat, testId: string, suffix: string,
                   P: nat, e: nat, o: nat, q: nat)
    requires PayloadAt(line, prefix, id, testId, suffix, P, e, o, q)
    ensures |line| == q + 1 + |suffix|
    ensures line[e] == ' ' && line[o] == '['
    ensures line[o + 1..q] == testId
    ensures line[q] == ']'
    ensures line[q + 1..] == suffix
  {
    PayloadNest(line, prefix, id, testId, suffix, P, e, o, q);
    var t4 := testId + ("]" + suffix);
    var t3 := " [" + t4;
    assert line[e..] == t3;
    assert line[o + 1..] == t4;
  }

  /** Where each part of a payload line sits. */
  lemma PayloadLayout(line: string, prefix: string, id: nat, testId: string, suffix: string,
                      P: nat, e: nat, o: nat, q: nat)
    requires PayloadAt(line, prefix, id, testId, suffix, P, e, o, q)
    ensures |line| == q + 1 + |suffix|
    ensures line[..P] == prefix
    ensures line[P..P + 16] == "memobench: Test "
    ensures line[P + 16..e] == Decimal(id)
    ensures line[e] == ' ' && line[o] == '['
    ensures line[o + 1..q] == testId
    ensures line[q] == ']'
    ensures line[q + 1..] == suffix
  {
    LayoutHead(line, prefix, id, testId, suffix, P, e, o, q);
    LayoutTail(line, prefix, id, testId, suffix, P, e, o, q);
  }

  /** No marker occurrence starts inside a marker-free prefix of a payload line:
      one that overlapped the payload would need a `:` among its first nine characters. */
  lemma NoMarkerBeforePayload(line: string, prefix: string, id: nat, testId: string, suffix: string,
                              P: nat, e: nat, o: nat, q: nat)
    requires PayloadAt(line, prefix, id, testId, suffix, P, e, o, q)
    requires forall i: nat :: !MarkerAt(prefix, i)
    ensures MarkerAt(line, P)
    ensures forall i: nat :: i < P ==> !MarkerAt(line, i)
  {
    PayloadLayout(line, prefix, id, testId, suffix, P, e, o, q);
    var lead := "memobench: Test ";
    assert forall k :: 0 <= k < |Marker| ==> line[P + k] == lead[k] == Marker[k];
    forall i: nat | i < P
      ensures !MarkerAt(line, i)
    {
      if i + |Marker| <= P {
        assert !MarkerAt(prefix, i);
      } else if i + |Marker| <= |line| {
        assert lead[..9] == "memobench";
        assert lead[i + 9 - P] in lead[..9];
        assert line[i + 9] != Marker[9];
      }
    }
  }

  /** The marker's line runs at least to the payload's closing bracket. */
  lemma PayloadLineEnd(line: string, prefix: string, id: nat, testId: string, suffix: string,
                       P: nat, e: nat, o: nat, q: nat)
    requires PayloadAt(line, prefix, id, testId, suffix, P, e, o, q)
    requires forall i :: 0 <= i < |testId| ==> testId[i] != '\n'
    ensures P + |Marker| <= |line|
    ensures q < LineEnd(line, P + |Marker|)
  {
    PayloadLayout(line, prefix, id, testId, suffix, P, e, o, q);
    assert "memobench: Test "[10..] == " Test ";
  }

  /** How the search functions behave on a digit run `[k, e)` that is the first
      digit after `start` and is followed by a non-digit. */
  lemma NumberCapture(line: string, start: nat, k: nat, e: nat, end: nat)
    requires start <= k < e < end <= |line|
    requires forall j :: start <= j < k ==> !IsDigit(line[j])
    requires forall j :: k <= j < e ==> IsDigit(line[j])
    requires !IsDigit(line[e])
    ensures FirstDigit(line, start, end) == Some(k)
    ensures DigitRunEnd(line, k, end) == e
  {
    assert IsDigit(line[k]);
  }

  /** How the search functions behave on a bracket pair `[o, q]` with no bracket
      inside and no `[` after it before `end`. */
  lemma BracketCapture(line: string, lo: nat, o: nat, q: nat, end: nat)
    requires lo <= o < q < end <= |line|
    requires line[o] == '[' && line[q] == ']'
    requires forall j :: o < j < q ==> line[j] != ']' && line[j] != '['
    requires forall j :: q < j < end ==> line[j] != '['
    ensures FindChar(line, ']', o + 1, end) == Some(q)
    ensures LastOpen(line, lo, end, end) == Some(o)
  {
    assert FindChar(line, ']', o + 1, end) == Some(q);
    assert Opens(line, o, end);
    var r := LastOpen(line, lo, end, end);
    assert r.Some?;
  }

  /** The parse of a line whose first marker is at `m`, assembled from the
      results of the searches `MatchAt` makes there. */
  lemma ParseAt(line: string, m: nat, k: nat, e: nat, o: nat, q: nat)
    requires MarkerAt(line, m)
    requires forall i: nat :: i < m ==> !MarkerAt(line, i)
    requires var end := LineEnd(line, m + |Marker|);
             && FirstDigit(line, m + |Marker|, end) == Some(k)
             && DigitRunEnd(line, k, end) == e
             && LastOpen(line, e, end, end) == Some(o)
             && FindChar(line, ']', o + 1, end) == Some(q)
    ensures ParseMemo(line) == Some(Capture(line[k..e], line[o + 1..q]))
  {
    assert FindMarker(line, 0) == Some(m);
    MatchAtValue(line, m, k, e, o, q);
    assert ParseFrom(line, 0) == MatchAt(line, m);
  }

  /** The value of `MatchAt` from the results of its searches. */
  lemma MatchAtValue(line: string, m: nat, k: nat, e: nat, o: nat, q: nat)
    requires MarkerAt(line, m)
    requires var end := LineEnd(line, m + |Marker|);
             && FirstDigit(line, m + |Marker|, end) == Some(k)
             && DigitRunEnd(line, k, end) == e
             && LastOpen(line, e, end, end) == Some(o)
             && FindChar(line, ']', o + 1, end) == Some(q)
    ensures MatchAt(line, m) == Some(Capture(line[k..e], line[o + 1..q]))
  {
  }

  /** Capture 1 of a payload line is the decimal numeral of the sequence number. */
  lemma PayloadNumber(line: string, prefix: string, id: nat, testId: string, suffix: string,
                      P: nat, e: nat, o: nat, q: nat, end: nat)
    requires PayloadAt(line, prefix, id, testId, suffix, P, e, o, q)
    requires q < end <= |line|
    ensures FirstDigit(line, P + |Marker|, end) == Some(P + 16)
    ensures DigitRunEnd(line, P + 16, end) == e
    ensures line[P + 16..e] == Decimal(id)
  {
    PayloadLayout(line, prefix, id, testId, suffix, P, e, o, q);
    var lead := "memobench: Test ";
    forall j | P + |Marker| <= j < P + 16
      ensures !IsDigit(line[j])
    {
      assert lead[10..] == " Test ";
      assert lead[j - P] in lead[10..];
    }
    NumberCapture(line, P + |Marker|, P + 16, e, end);
  }

  /** Capture 2 of a payload line is the test identifier, provided the identifier
      holds no bracket and no `[` follows the payload on its line. */
  lemma PayloadIdentifier(line: string, prefix: string, id: nat, testId: string, suffix: string,
                          P: nat, e: nat, o: nat, q: nat, end: nat)
    requires PayloadAt(line, prefix, id, testId, suffix, P, e, o, q)
    requires forall i :: 0 <= i < |testId| ==> testId[i] != '[' && testId[i] != ']'
    requires forall i :: 0 <= i < |suffix| ==> suffix[i] != '['
    requires q < end <= |line|
    ensures LastOpen(line, e, end, end) == Some(o)
    ensures FindChar(line, ']', o + 1, end) == Some(q)
    ensures line[o + 1..q] == testId
  {
    PayloadLayout(line, prefix, id, testId, suffix, P, e, o, q);
    forall j | o < j < q
      ensures line[j] != ']' && line[j] != '['
    {
      assert line[j] == line[o + 1..q][j - (o + 1)];
    }
    forall j | q < j < end
      ensures line[j] != '['
    {
      assert line[j] == line[q + 1..][j - (q + 1)];
    }
    BracketCapture(line, e, o, q, end);
  }

  /** The listener's pattern applied to a log line that carries the memo of
      transaction `id` yields the decimal numeral of `id` and the test identifier,
      whatever surrounds the memo, as long as no marker precedes it and no `[`
      follows it. */
  lemma ParsePayload(prefix: string, id: nat, testId: string, suffix: string)
    requires forall i: nat :: !MarkerAt(prefix, i)
    requires forall i :: 0 <= i < |testId| ==> testId[i] != '[' && testId[i] != ']' && testId[i] != '\n'
    requires forall i :: 0 <= i < |suffix| ==> suffix[i] != '['
    ensures ParseMemo(prefix + Payload(id, testId) + suffix) == Some(Capture(Decimal(id), testId))
  {
    var line := prefix + Payload(id, testId) + suffix;
    var P := |prefix|;
    var e := P + 16 + |Decimal(id)|;
    var o := e + 1;
    var q := o + 1 + |testId|;
    assert PayloadAt(line, prefix, id, testId, suffix, P, e, o, q);
    NoMarkerBeforePayload(line, prefix, id, testId, suffix, P, e, o, q);
    PayloadLineEnd(line, prefix, id, testId, suffix, P, e, o, q);
    var end := LineEnd(line, P + |Marker|);
    PayloadNumber(line, prefix, id, testId, suffix, P, e, o, q, end);
    PayloadIdentifier(line, prefix, id, testId, suffix, P, e, o, q, end);
    ParseAt(line, P, P + 16, e, o, q);
  }

  /** The memo of transaction `id` in a run whose identifier came from 4 random
      bytes parses back, wherever the log places it, to that run's identifier and
      to a numeral whose value is `id`. */
  lemma MemoRoundTrip(prefix: string, id: nat, random: seq<Byte>, suffix: string)
    requires |random| == 4
    requires forall i: nat :: !MarkerAt(prefix, i)
    requires forall i :: 0 <= i < |suffix| ==> suffix[i] != '['
    ensures var r := ParseMemo(prefix + Payload(id, NewTestId(random)) + suffix);
            && r.Some?
            && r.value.id == NewTestId(random)
            && NumeralValue(r.value.num) == id
  {
    var testId := NewTestId(random);
    forall i | 0 <= i < |testId|
      ensures testId[i] != '[' && testId[i] != ']' && testId[i] != '\n'
    {
      assert IsLowerHex(testId[i]);
    }
    ParsePayload(prefix, id, testId, suffix);
    DecimalRoundTrip(id);
  }
}
