/** The DDR3 matrix-vector module as the device computes it: 80-lane gathers of the trit stream,
    encoded words, and eight-lane sub-dots against packed activation bytes. */
module MatvecDevice {
  import opened Arithmetic
  import opened Results
  import opened Digits
  import opened TritCodec
  import opened Ddr3Codec

  datatype Failure = NotAligned | ActivationCount | TritCount | NotATrit | TooWide

  datatype Run = Run(accumulators: seq<int>, badWords: nat, reported: seq<nat>)

  /** Words a row takes. Only dense5 checks that the row fills them; baseline2 rounds down. */
  function WordsPerRow(cols: nat, fmt: Layout): nat {
    match fmt
    case Dense5 => if cols % 80 == 0 then cols / 80 else 0
    case Baseline2 => cols / 64
  }

  /** The columns the device reads. */
  function DeviceCols(cols: nat, fmt: Layout): nat {
    match fmt
    case Dense5 => WordsPerRow(cols, fmt) * 80
    case Baseline2 => WordsPerRow(cols, fmt) * 64
  }

  // ---- Activations ----

  function SignExtend(byte: nat): int {
    if byte >= 128 then byte - 256 else byte
  }

  /** An activation through its stored byte. */
  function Stored(act: int): int {
    SignExtend(act % 256)
  }

  /** The stored byte keeps exactly the int8 values. */
  lemma StoredExact(act: int)
    ensures Stored(act) == act <==> -128 <= act < 128
    ensures -128 <= Stored(act) < 128
  {
  }

  /** The eight activation bytes from a column on, zero past the last. */
  function ActBytes(acts: seq<int>, from: nat): (bytes: seq<nat>)
    ensures |bytes| == 8 && Below(256, bytes)
    ensures forall j :: 0 <= j < 8 && from + j < |acts| ==> bytes[j] == acts[from + j] % 256
  {
    seq(8, j requires 0 <= j < 8 => if from + j < |acts| then acts[from + j] % 256 else 0)
  }

  /** act_words: sixteen columns a word, in two halves. */
  method ActWords(acts: seq<int>) returns (words: seq<(nat, nat)>)
    ensures |words| == (|acts| + 15) / 16
    ensures forall w :: 0 <= w < |words| ==> words[w].0 == Num(256, ActBytes(acts, 16 * w))
    ensures forall w :: 0 <= w < |words| ==> words[w].1 == Num(256, ActBytes(acts, 16 * w + 8))
  {
    hide Num, ActBytes;
    words := [];
    for w := 0 to (|acts| + 15) / 16
      invariant |words| == w
      invariant forall v :: 0 <= v < w ==> words[v].0 == Num(256, ActBytes(acts, 16 * v))
      invariant forall v :: 0 <= v < w ==> words[v].1 == Num(256, ActBytes(acts, 16 * v + 8))
    {
      var lo := HalfWord(acts, 16 * w);
      var hi := HalfWord(acts, 16 * w + 8);
      words := words + [(lo, hi)];
    }
  }

  method HalfWord(acts: seq<int>, from: nat) returns (half: nat)
    ensures half == Num(256, ActBytes(acts, from))
  {
    hide Num, Pow;
    half := 0;
    ghost var bytes := ActBytes(acts, from);
    NumEmpty(256, bytes);
    for j := 0 to 8
      invariant half == Num(256, bytes[..j])
    {
      var byte := if from + j < |acts| then acts[from + j] % 256 else 0;
      NumAppend(256, bytes[..j], byte);
      assert bytes[..j] + [byte] == bytes[..j + 1];
      half := half + Mul(byte, Pow(256, j));
    }
    assert bytes[..8] == bytes;
  }

  lemma NumEmpty(b: nat, ds: seq<nat>)
    ensures Num(b, ds[..0]) == 0
  {
  }

  // ---- Lanes ----

  function LaneAt(trits: seq<int>, i: nat): (code: nat)
    ensures code < 3
  {
    if i < |trits| then LaneOfTrit(trits[i]) else 0
  }

  /** The 80 lanes from `base` on, zero past the end of the stream. */
  function LaneCodes(trits: seq<int>, base: nat): (codes: seq<nat>)
    ensures |codes| == 80 && forall j :: 0 <= j < 80 ==> codes[j] == LaneAt(trits, base + j)
  {
    seq<nat>(80, j requires 0 <= j < 80 => LaneAt(trits, base + j))
  }

  lemma LanesBelow(trits: seq<int>, base: nat)
    ensures Below(3, LaneCodes(trits, base))
  {
    hide LaneAt;
  }

  /** Every value of the stream from lo to hi, as far as it goes, is a trit. */
  predicate TritsIn(trits: seq<int>, lo: nat, hi: nat) {
    forall i :: lo <= i < hi && i < |trits| ==> -1 <= trits[i] <= 1
  }

  /** None where a value that is no trit is looked up. */
  method LaneWord(trits: seq<int>, base: nat) returns (lanes: Option<nat>)
    ensures lanes.Some? <==> TritsIn(trits, base, base + 80)
    ensures lanes.Some? ==> lanes.value == Num(4, LaneCodes(trits, base))
  {
    hide Num, Pow;
    var word := 0;
    ghost var codes := LaneCodes(trits, base);
    NumEmpty(4, codes);
    for j := 0 to 80
      invariant word == Num(4, codes[..j])
      invariant forall i :: base <= i < base + j && i < |trits| ==> -1 <= trits[i] <= 1
    {
      var trit := if base + j < |trits| then trits[base + j] else 0;
      if !(-1 <= trit <= 1) {
        return None;
      }
      NumAppend(4, codes[..j], LaneOfTrit(trit));
      assert codes[..j] + [LaneOfTrit(trit)] == codes[..j + 1];
      word := word + Mul(LaneOfTrit(trit), Pow(4, j));
    }
    assert codes[..80] == codes;
    lanes := Some(word);
  }

  // ---- The dot products ----

  /** The plain dot product of n trits from `base` on with the first n activations. */
  function RowDot(trits: seq<int>, acts: seq<int>, base: nat, n: nat): int
    requires base + n <= |trits| && n <= |acts|
  {
    if n == 0 then 0 else RowDot(trits, acts, base, n - 1) + trits[base + n - 1] * Stored(acts[n - 1])
  }

  /** Eight lanes of a gather against one half word of activations: the next eight terms. */
  method DotChunk(lanes: nat, at: nat, word: nat, ghost trits: seq<int>, ghost acts: seq<int>, ghost base: nat,
                  ghost n: nat)
    returns (total: int)
    requires at + 8 <= 80 && at <= n && TritsIn(trits, base + n, base + n + 8) && base + n + 8 <= |trits|
      && n + 8 <= |acts|
    requires lanes == Num(4, LaneCodes(trits, base + n - at))
    requires word == Num(256, ActBytes(acts, n))
    ensures RowDot(trits, acts, base, n) + total == RowDot(trits, acts, base, n + 8)
  {
    hide Num, Digit, Stored;
    ghost var codes, bytes := LaneCodes(trits, base + n - at), ActBytes(acts, n);
    LanesBelow(trits, base + n - at);
    PackedLanes(codes);
    DigitsOfNum(256, bytes);
    total := 0;
    for j := 0 to 8
      invariant RowDot(trits, acts, base, n) + total == RowDot(trits, acts, base, n + j)
    {
      hide RowDot, TritsIn;
      var code := Digit(4, lanes, at + j);
      assert code == DigitsOf(4, lanes, 80)[at + j] == codes[at + j];
      var byte := Digit(256, word, j);
      assert byte == DigitsOf(256, word, 8)[j] == bytes[j];
      var trit := if code == 1 then 1 else if code == 2 then -1 else 0;
      TritBack(trits, base + n, base + n + 8, base + n + j);
      StoredIs(acts[n + j]);
      DotNext(trits, acts, base, n + j, trit, SignExtend(byte));
      total := total + trit * SignExtend(byte);
    }
  }

  lemma TritBack(trits: seq<int>, lo: nat, hi: nat, i: nat)
    requires lo <= i < hi && i < |trits| && TritsIn(trits, lo, hi)
    ensures TritOfLane(LaneOfTrit(trits[i])) == trits[i]
  {
  }

  lemma StoredIs(act: int)
    ensures Stored(act) == SignExtend(act % 256)
  {
  }

  lemma DotNext(trits: seq<int>, acts: seq<int>, base: nat, n: nat, t: int, a: int)
    requires base + n + 1 <= |trits| && n + 1 <= |acts|
    requires t == trits[base + n] && a == Stored(acts[n])
    ensures RowDot(trits, acts, base, n + 1) == RowDot(trits, acts, base, n) + t * a
  {
  }

  /** The activation store holds eight columns a half word. */
  ghost predicate Holds(store: seq<nat>, acts: seq<int>) {
    && |store| == 2 * ((|acts| + 15) / 16)
    && forall h :: 0 <= h < |store| ==> store[h] == Num(256, ActBytes(acts, 8 * h))
  }

  method ActStore(acts: seq<int>) returns (store: seq<nat>)
    ensures Holds(store, acts)
  {
    hide Num, ActBytes;
    var words := ActWords(acts);
    store := [];
    for w := 0 to |words|
      invariant |store| == 2 * w
      invariant forall h :: 0 <= h < |store| ==> store[h] == Num(256, ActBytes(acts, 8 * h))
    {
      store := store + [words[w].0, words[w].1];
    }
  }

  /** One word of a row: gather, encode, check the decode, and its sub-dots. None where the gather
      meets a value that is no trit. */
  method WordDot(trits: seq<int>, store: seq<nat>, fmt: Layout, base: nat, n: nat, ghost acts: seq<int>)
    returns (r: Option<(nat, int)>)
    requires Holds(store, acts) && n % 8 == 0
    requires base + n + LanesIn(fmt) <= |trits| && n + LanesIn(fmt) <= |acts|
    ensures r.Some? <==> TritsIn(trits, base + n, base + n + 80)
    ensures r.Some? ==> r.value.0 == 0
    ensures r.Some? ==> RowDot(trits, acts, base, n) + r.value.1 == RowDot(trits, acts, base, n + LanesIn(fmt))
  {
    hide Num, RowDot, EncodeWord, LanesOf, BadIn, ActBytes, TritsIn;
    ghost var codes := LaneCodes(trits, base + n);
    var gathered := LaneWord(trits, base + n);
    if gathered.None? {
      return None;
    }
    var lanes := gathered.value;
    LanesBelow(trits, base + n);
    hide LaneCodes;
    WordRoundTrip(fmt, codes);
    var back, invalid := DecodeWord(fmt, EncodeWord(fmt, lanes).value);
    var total := 0;
    for s := 0 to LanesIn(fmt) / 8
      invariant RowDot(trits, acts, base, n) + total == RowDot(trits, acts, base, n + 8 * s)
    {
      TritsPart(trits, base + n, base + n + 80, base + n + 8 * s, base + n + 8 * s + 8);
      var part := DotChunk(lanes, 8 * s, store[n / 8 + s], trits, acts, base, n + 8 * s);
      total := total + part;
    }
    r := Some((invalid, total));
  }

  lemma TritsPart(trits: seq<int>, lo: nat, hi: nat, lo': nat, hi': nat)
    requires TritsIn(trits, lo, hi) && lo <= lo' && hi' <= hi
    ensures TritsIn(trits, lo', hi')
  {
  }

  /** Every word of a row gathers only trits. A gather takes 80 lanes, also where a word holds 64. */
  ghost predicate RowGathers(trits: seq<int>, fmt: Layout, base: nat, words: nat) {
    forall w :: 0 <= w < words ==> Gathers(trits, fmt, base, w)
  }

  ghost predicate Gathers(trits: seq<int>, fmt: Layout, base: nat, w: nat) {
    TritsIn(trits, base + w * LanesIn(fmt), base + w * LanesIn(fmt) + 80)
  }

  /** One row: the plain dot product of the columns the device reads. */
  method RowLoop(trits: seq<int>, store: seq<nat>, fmt: Layout, base: nat, words: nat, ghost acts: seq<int>)
    returns (r: Option<(nat, int)>)
    requires Holds(store, acts)
    requires base + words * LanesIn(fmt) <= |trits| && words * LanesIn(fmt) <= |acts|
    ensures r.Some? <==> RowGathers(trits, fmt, base, words)
    ensures r.Some? ==> r.value == (0, RowDot(trits, acts, base, words * LanesIn(fmt)))
  {
    hide Holds, RowDot, TritsIn;
    var bad: nat, acc := 0, 0;
    NoTerms(trits, acts, base);
    for w := 0 to words
      invariant bad == 0 && w * LanesIn(fmt) <= words * LanesIn(fmt)
      invariant RowGathers(trits, fmt, base, w)
      invariant acc == RowDot(trits, acts, base, w * LanesIn(fmt))
    {
      NextWord(w, words, fmt);
      GathersNext(trits, fmt, base, w, words);
      var word := WordDot(trits, store, fmt, base, w * LanesIn(fmt), acts);
      if word.None? {
        return None;
      }
      bad := bad + if word.value.0 > 0 then 1 else 0;
      acc := acc + word.value.1;
    }
    r := Some((bad, acc));
  }

  lemma GathersNext(trits: seq<int>, fmt: Layout, base: nat, w: nat, words: nat)
    requires RowGathers(trits, fmt, base, w) && w < words
    ensures RowGathers(trits, fmt, base, w + 1)
      <==> TritsIn(trits, base + w * LanesIn(fmt), base + w * LanesIn(fmt) + 80)
    ensures RowGathers(trits, fmt, base, words) ==> RowGathers(trits, fmt, base, w + 1)
  {
    hide TritsIn;
    assert Gathers(trits, fmt, base, w) <==> TritsIn(trits, base + w * LanesIn(fmt), base + w * LanesIn(fmt) + 80);
    hide Gathers;
  }

  lemma NoTerms(trits: seq<int>, acts: seq<int>, base: nat)
    requires base <= |trits|
    ensures RowDot(trits, acts, base, 0) == 0
  {
  }

  lemma NextWord(w: nat, words: nat, fmt: Layout)
    requires w < words
    ensures (w + 1) * LanesIn(fmt) == w * LanesIn(fmt) + LanesIn(fmt) <= words * LanesIn(fmt)
    ensures w * LanesIn(fmt) % 8 == 0
  {
    match fmt
    case Baseline2 => NextWord64(w, words);
    case Dense5 => NextWord80(w, words);
  }

  lemma NextWord64(w: nat, words: nat)
    requires w < words
    ensures (w + 1) * 64 == w * 64 + 64 <= words * 64 && w * 64 % 8 == 0
  {
    MultipleOf(w * 64, 8, 8 * w);
  }

  lemma NextWord80(w: nat, words: nat)
    requires w < words
    ensures (w + 1) * 80 == w * 80 + 80 <= words * 80 && w * 80 % 8 == 0
  {
    MultipleOf(w * 80, 8, 10 * w);
  }

  /** Row r's first trit. */
  function RowBase(r: nat, cols: nat): nat {
    r * cols
  }

  lemma RowFits(r: nat, rows: nat, cols: nat)
    requires r < rows
    ensures RowBase(r, cols) + cols <= rows * cols
  {
    MulOrder(cols, r + 1, rows);
  }

  lemma DeviceColsFit(cols: nat, fmt: Layout)
    ensures WordsPerRow(cols, fmt) * LanesIn(fmt) == DeviceCols(cols, fmt) <= cols
    ensures WordsPerRow(cols, fmt) > 0 ==> (DeviceCols(cols, fmt) == cols <==> cols % LanesIn(fmt) == 0)
  {
  }

  /** Words a row: of dense5 exactly those it fills, none where it does not fill them; of baseline2
      those that fit, whether or not columns are left over. */
  lemma WordsOfRow(cols: nat)
    ensures WordsPerRow(cols, Baseline2) * 64 <= cols < (WordsPerRow(cols, Baseline2) + 1) * 64
    ensures WordsPerRow(cols, Dense5) == 0 <==> cols == 0 || cols % 80 != 0
    ensures WordsPerRow(cols, Dense5) > 0 ==> WordsPerRow(cols, Dense5) * 80 == cols
  {
  }

  /** The shape checks, in the order the code makes them. */
  function ShapeError(trits: seq<int>, acts: seq<int>, cols: nat, rows: nat, fmt: Layout): Option<Failure> {
    if WordsPerRow(cols, fmt) == 0 then Some(NotAligned)
    else if |acts| != cols then Some(ActivationCount)
    else if |trits| != rows * cols then Some(TritCount)
    else None
  }

  /** Every row gathers only trits. */
  ghost predicate AllGather(trits: seq<int>, fmt: Layout, cols: nat, rows: nat) {
    forall i :: 0 <= i < rows ==> RowGathers(trits, fmt, RowBase(i, cols), WordsPerRow(cols, fmt))
  }

  /** What a run of well-formed inputs reports. */
  ghost predicate RunMeans(run: Run, trits: seq<int>, acts: seq<int>, cols: nat, rows: nat, fmt: Layout) {
    && DeviceCols(cols, fmt) <= |acts| && |trits| == rows * cols
    && |run.accumulators| == rows == |run.reported| && run.badWords == 0
    && forall i :: 0 <= i < rows ==> RowReport(run, trits, acts, cols, fmt, i)
  }

  ghost predicate RowReport(run: Run, trits: seq<int>, acts: seq<int>, cols: nat, fmt: Layout, i: nat)
    requires i < |run.accumulators| && i < |run.reported|
  {
    && DeviceCols(cols, fmt) <= |acts| && RowBase(i, cols) + DeviceCols(cols, fmt) <= |trits|
    && run.accumulators[i] == RowDot(trits, acts, RowBase(i, cols), DeviceCols(cols, fmt))
    && run.reported[i] == run.accumulators[i] % 0x100_0000_0000
  }

  /** run_expectation: shape errors in the code's order; the lookup error exactly where some word
      gathers a value that is no trit; otherwise every accumulator is the plain dot product of the
      columns the device reads, no word is bad, and each report is the accumulator modulo 2^40. */
  method RunExpectation(trits: seq<int>, acts: seq<int>, cols: nat, rows: nat, fmt: Layout)
    returns (r: Result<Run, Failure>)
    ensures var shape := ShapeError(trits, acts, cols, rows, fmt);
      && (shape.Some? ==> r == Err(shape.value))
      && (shape.None? && !AllGather(trits, fmt, cols, rows) ==> r == Err(NotATrit))
      && (shape.None? && AllGather(trits, fmt, cols, rows) ==> r.Ok? && RunMeans(r.value, trits, acts, cols, rows, fmt))
  {
    var words := WordsPerRow(cols, fmt);
    if words == 0 {
      return Err(NotAligned);
    }
    if |acts| != cols {
      return Err(ActivationCount);
    }
    if |trits| != rows * cols {
      return Err(TritCount);
    }
    DeviceColsFit(cols, fmt);
    var rowsRun := RunRows(trits, acts, cols, rows, fmt);
    r := match rowsRun case Some(run) => Ok(run) case None => Err(NotATrit);
  }

  /** The reports so far are those of the first rows. */
  ghost predicate RowsReport(run: Run, trits: seq<int>, acts: seq<int>, cols: nat, fmt: Layout, n: nat) {
    && |run.accumulators| == n == |run.reported| && run.badWords == 0
    && forall i :: 0 <= i < n ==> RowReport(run, trits, acts, cols, fmt, i)
  }

  lemma MoreRows(run: Run, trits: seq<int>, acts: seq<int>, cols: nat, fmt: Layout, n: nat, acc: int)
    requires RowsReport(run, trits, acts, cols, fmt, n)
    requires DeviceCols(cols, fmt) <= |acts| && RowBase(n, cols) + DeviceCols(cols, fmt) <= |trits|
    requires acc == RowDot(trits, acts, RowBase(n, cols), DeviceCols(cols, fmt))
    ensures RowsReport(Run(run.accumulators + [acc], 0, run.reported + [acc % 0x100_0000_0000]), trits, acts, cols,
                       fmt, n + 1)
  {
    hide RowDot, DeviceCols, RowBase;
    var more := Run(run.accumulators + [acc], 0, run.reported + [acc % 0x100_0000_0000]);
    forall i: nat | i < n + 1 ensures RowReport(more, trits, acts, cols, fmt, i) {
      if i < n {
        assert RowReport(run, trits, acts, cols, fmt, i);
      }
    }
  }

  /** The loop over the rows; None where one gathers a value that is no trit. */
  method RunRows(trits: seq<int>, acts: seq<int>, cols: nat, rows: nat, fmt: Layout) returns (r: Option<Run>)
    requires WordsPerRow(cols, fmt) > 0 && |acts| == cols && |trits| == rows * cols
    ensures r.Some? <==> AllGather(trits, fmt, cols, rows)
    ensures r.Some? ==> RunMeans(r.value, trits, acts, cols, rows, fmt)
  {
    DeviceColsFit(cols, fmt);
    var words := WordsPerRow(cols, fmt);
    hide RowDot, WordsPerRow, DeviceCols, RowBase, RowGathers, LanesIn, RowsReport, RowReport;
    var store := ActStore(acts);
    hide Holds;
    var run := Run([], 0, []);
    assert RowsReport(run, trits, acts, cols, fmt, 0) by { NoRows(run, trits, acts, cols, fmt); }
    for i := 0 to rows
      invariant run.badWords == 0 && RowsReport(run, trits, acts, cols, fmt, i)
      invariant forall k :: 0 <= k < i ==> RowGathers(trits, fmt, RowBase(k, cols), words)
    {
      RowFits(i, rows, cols);
      var row := RowLoop(trits, store, fmt, RowBase(i, cols), words, acts);
      if row.None? {
        return None;
      }
      var (bad, acc) := row.value;
      MoreRows(run, trits, acts, cols, fmt, i, acc);
      run := Run(run.accumulators + [acc], run.badWords + bad, run.reported + [acc % 0x100_0000_0000]);
    }
    AllReported(run, trits, acts, cols, rows, fmt);
    r := Some(run);
  }

  lemma NoRows(run: Run, trits: seq<int>, acts: seq<int>, cols: nat, fmt: Layout)
    requires run == Run([], 0, [])
    ensures RowsReport(run, trits, acts, cols, fmt, 0)
  {
  }

  lemma AllReported(run: Run, trits: seq<int>, acts: seq<int>, cols: nat, rows: nat, fmt: Layout)
    requires RowsReport(run, trits, acts, cols, fmt, rows)
    requires DeviceCols(cols, fmt) <= |acts| && |trits| == rows * cols
    ensures RunMeans(run, trits, acts, cols, rows, fmt)
  {
    hide RowReport, DeviceCols;
  }

  // ---- When the device computes the whole row ----

  /** A matrix of trits and its activations. */
  ghost predicate MatrixData(trits: seq<int>, acts: seq<int>, rows: nat, cols: nat) {
    |trits| == rows * cols && |acts| == cols && AllTrits(trits)
  }

  /** The terms of a row from column n on. */
  function TailDot(trits: seq<int>, acts: seq<int>, base: nat, n: nat, cols: nat): int
    requires n <= cols && base + cols <= |trits| && cols <= |acts|
    decreases cols - n
  {
    if n == cols then 0 else trits[base + n] * Stored(acts[n]) + TailDot(trits, acts, base, n + 1, cols)
  }

  lemma {:induction false} DotSplit(trits: seq<int>, acts: seq<int>, base: nat, n: nat, cols: nat)
    requires n <= cols && base + cols <= |trits| && cols <= |acts|
    ensures RowDot(trits, acts, base, cols) == RowDot(trits, acts, base, n) + TailDot(trits, acts, base, n, cols)
    decreases cols - n
  {
    hide Stored;
    if n == cols {
      assert TailDot(trits, acts, base, n, cols) == 0;
    } else {
      DotNext(trits, acts, base, n, trits[base + n], Stored(acts[n]));
      DotSplit(trits, acts, base, n + 1, cols);
      hide RowDot;
    }
  }

  /** The device computes row r as the plain dot product. */
  ghost predicate SeesRow(trits: seq<int>, acts: seq<int>, rows: nat, cols: nat, fmt: Layout, r: nat)
    requires r < rows && MatrixData(trits, acts, rows, cols)
  {
    && DeviceCols(cols, fmt) <= cols && RowBase(r, cols) + cols <= |trits|
    && RowDot(trits, acts, RowBase(r, cols), DeviceCols(cols, fmt)) == RowDot(trits, acts, RowBase(r, cols), cols)
  }

  /** A row is computed in full exactly when its columns past the last whole word contribute
      nothing. */
  lemma RowSeenExactly(trits: seq<int>, acts: seq<int>, rows: nat, cols: nat, fmt: Layout, r: nat)
    requires r < rows && MatrixData(trits, acts, rows, cols)
    ensures DeviceCols(cols, fmt) <= cols && RowBase(r, cols) + cols <= |trits|
    ensures SeesRow(trits, acts, rows, cols, fmt, r)
      <==> TailDot(trits, acts, RowBase(r, cols), DeviceCols(cols, fmt), cols) == 0
  {
    DeviceColsFit(cols, fmt);
    RowFits(r, rows, cols);
    hide RowDot, TailDot, RowBase, DeviceCols;
    DotSplit(trits, acts, RowBase(r, cols), DeviceCols(cols, fmt), cols);
  }

  /** The device sees every column of every row of every matrix exactly when the columns fill whole
      words. For dense5 the alignment guard ensures it; for baseline2 nothing does, and a partial
      last word of each row is silently left out. */
  lemma {:induction false} WholeRowsExactly(rows: nat, cols: nat, fmt: Layout)
    requires WordsPerRow(cols, fmt) > 0 && rows > 0
    ensures (forall trits, acts, r | MatrixData(trits, acts, rows, cols) && 0 <= r < rows ::
               SeesRow(trits, acts, rows, cols, fmt, r))
            <==> cols % LanesIn(fmt) == 0
    ensures fmt == Dense5 ==> cols % LanesIn(fmt) == 0
  {
    DeviceColsFit(cols, fmt);
    if cols % LanesIn(fmt) == 0 {
      forall trits, acts, r | MatrixData(trits, acts, rows, cols) && 0 <= r < rows
        ensures SeesRow(trits, acts, rows, cols, fmt, r) {
        RowFits(r, rows, cols);
      }
    } else {
      PartialWordMissed(rows, cols, fmt);
    }
  }

  /** Over a matrix of ones with unit activations a partial last word is missed. */
  lemma PartialWordMissed(rows: nat, cols: nat, fmt: Layout)
    requires rows > 0 && DeviceCols(cols, fmt) < cols
    ensures exists trits, acts | MatrixData(trits, acts, rows, cols) :: !SeesRow(trits, acts, rows, cols, fmt, 0)
  {
    RowFits(0, rows, cols);
    var trits, acts := seq(rows * cols, _ => 1), seq(cols, _ => 1);
    OnesDot(trits, acts, DeviceCols(cols, fmt));
    OnesDot(trits, acts, cols);
    assert MatrixData(trits, acts, rows, cols);
    hide DeviceCols, RowDot;
    assert !SeesRow(trits, acts, rows, cols, fmt, 0);
  }

  lemma {:induction false} OnesDot(ones: seq<int>, acts: seq<int>, n: nat)
    requires n <= |ones| && n <= |acts| && AllOnes(ones) && AllOnes(acts)
    ensures RowDot(ones, acts, 0, n) == n
  {
    if n == 0 {
      assert RowDot(ones, acts, 0, 0) == 0;
    } else {
      OnesDot(ones, acts, n - 1);
      assert Stored(1) == 1;
    }
  }

  ghost predicate AllOnes(v: seq<int>) {
    forall i :: 0 <= i < |v| ==> v[i] == 1
  }

  // ---- Padding to both formats' widths ----

  /** Columns rounded up to a common multiple of both word widths. */
  function PaddedCols(cols: nat): nat {
    (cols + 319) / 320 * 320
  }

  lemma PaddedFits(cols: nat, fmt: Layout)
    ensures cols <= PaddedCols(cols) < cols + 320 && PaddedCols(cols) % LanesIn(fmt) == 0
    ensures cols > 0 ==> WordsPerRow(PaddedCols(cols), fmt) > 0
  {
    WholeWords((cols + 319) / 320);
  }

  lemma WholeWords(k: nat)
    ensures k * 320 % 64 == 0 && k * 320 % 80 == 0 && k * 320 / 64 == 5 * k && k * 320 / 80 == 4 * k
  {
    MultipleOf(k * 320, 64, 5 * k);
    MultipleOf(k * 320, 80, 4 * k);
  }

  function ZeroInts(n: nat): (z: seq<int>)
    ensures |z| == n && forall i :: 0 <= i < n ==> z[i] == 0
  {
    seq(n, _ => 0)
  }

  /** Every row extended with zeros. */
  function PadRows(values: seq<int>, rows: nat, cols: nat, width: nat): (out: seq<int>)
    requires |values| == rows * cols && cols <= width
    ensures |out| == rows * width
    decreases rows
  {
    if rows == 0 then [] else
      RowFits(rows - 1, rows, cols);
      PadRows(values[..(rows - 1) * cols], rows - 1, cols, width) + values[(rows - 1) * cols..rows * cols]
        + ZeroInts(width - cols)
  }

  method PadLoop(values: seq<int>, rows: nat, cols: nat, width: nat) returns (out: seq<int>)
    requires |values| == rows * cols && cols <= width
    ensures out == PadRows(values, rows, cols, width)
  {
    out := [];
    for r := 0 to rows
      invariant r * cols <= |values|
      invariant out == PadRows(values[..r * cols], r, cols, width)
    {
      RowFits(r, rows, cols);
      assert values[..(r + 1) * cols][..r * cols] == values[..r * cols];
      assert values[..(r + 1) * cols][r * cols..(r + 1) * cols] == values[r * cols..(r + 1) * cols];
      out := out + values[r * cols..(r + 1) * cols] + ZeroInts(width - cols);
    }
    assert values[..rows * cols] == values;
  }

  /** Row r of the padded matrix is row r of the matrix followed by zeros. */
  lemma {:induction false} PaddedRow(values: seq<int>, rows: nat, cols: nat, width: nat, r: nat)
    requires |values| == rows * cols && cols <= width && r < rows
    ensures RowBase(r, width) + width <= rows * width && RowBase(r, cols) + cols <= rows * cols
    ensures var out := PadRows(values, rows, cols, width);
      out[RowBase(r, width)..RowBase(r, width) + width]
      == values[RowBase(r, cols)..RowBase(r, cols) + cols] + ZeroInts(width - cols)
    decreases rows
  {
    hide RowBase, PadRows;
    RowFits(r, rows, cols);
    RowFits(r, rows, width);
    LastRow(values, rows, cols, width);
    var n := RowBase(rows - 1, cols);
    var front := PadRows(values[..n], rows - 1, cols, width);
    var out := PadRows(values, rows, cols, width);
    if r < rows - 1 {
      RowFits(r, rows - 1, cols);
      RowFits(r, rows - 1, width);
      PaddedRow(values[..n], rows - 1, cols, width, r);
      var a, b := RowBase(r, width), RowBase(r, cols);
      InFront(out, front, a, a + width);
      InFront(values, values[..n], b, b + cols);
    } else {
      AtEnd(out, front, values[n..n + cols] + ZeroInts(width - cols));
    }
  }

  lemma AtEnd(all: seq<int>, front: seq<int>, last: seq<int>)
    requires all == front + last
    ensures all[|front|..|front| + |last|] == last
  {
  }

  lemma InFront(all: seq<int>, front: seq<int>, a: nat, b: nat)
    requires a <= b <= |front| <= |all| && all[..|front|] == front
    ensures all[a..b] == front[a..b]
  {
    forall i | a <= i < b ensures all[i] == front[i] {
      assert all[..|front|][i] == front[i];
    }
  }

  lemma LastRow(values: seq<int>, rows: nat, cols: nat, width: nat)
    requires |values| == rows * cols && cols <= width && rows > 0
    ensures RowBase(rows - 1, cols) + cols == |values| && RowBase(rows - 1, width) + width == rows * width
    ensures |values[..RowBase(rows - 1, cols)]| == (rows - 1) * cols
    ensures var n := RowBase(rows - 1, cols);
      PadRows(values, rows, cols, width)
      == PadRows(values[..n], rows - 1, cols, width) + (values[n..n + cols] + ZeroInts(width - cols))
    ensures |PadRows(values[..RowBase(rows - 1, cols)], rows - 1, cols, width)| == RowBase(rows - 1, width)
  {
    var n := RowBase(rows - 1, cols);
    assert rows * cols == n + cols;
    var a, b, c := PadRows(values[..n], rows - 1, cols, width), values[n..n + cols], ZeroInts(width - cols);
    assert PadRows(values, rows, cols, width) == a + b + c;
    assert a + b + c == a + (b + c);
  }

  /** Dot products depend only on the entries they read, and zero columns add nothing. */
  lemma {:induction false} DotOfRow(t: seq<int>, a: seq<int>, base: nat, u: seq<int>, b: seq<int>, from: nat, n: nat,
                                    m: nat)
    requires n <= m && base + m <= |t| && m <= |a| && from + n <= |u| && n <= |b|
    requires t[base..base + m] == u[from..from + n] + ZeroInts(m - n)
    requires a[..n] == b[..n]
    ensures RowDot(t, a, base, m) == RowDot(u, b, from, n)
    decreases m
  {
    hide Stored;
    if m > n {
      var whole := u[from..from + n] + ZeroInts(m - n);
      DropLast(t, base, m);
      assert whole[m - 1] == 0;
      assert whole[..m - 1] == u[from..from + n] + ZeroInts(m - 1 - n);
      DotOfRow(t, a, base, u, b, from, n, m - 1);
    } else {
      assert t[base..base + n] == u[from..from + n];
      DotOfSame(t, a, base, u, b, from, n);
    }
  }

  lemma {:induction false} DotOfSame(t: seq<int>, a: seq<int>, base: nat, u: seq<int>, b: seq<int>, from: nat, n: nat)
    requires base + n <= |t| && n <= |a| && from + n <= |u| && n <= |b|
    requires t[base..base + n] == u[from..from + n] && a[..n] == b[..n]
    ensures RowDot(t, a, base, n) == RowDot(u, b, from, n)
    decreases n
  {
    hide Stored;
    if n == 0 {
    } else {
      ShorterSlice(t, base, u, from, n);
      ShorterSlice(a, 0, b, 0, n);
      DotOfSame(t, a, base, u, b, from, n - 1);
    }
  }

  lemma DropLast(t: seq<int>, base: nat, m: nat)
    requires m > 0 && base + m <= |t|
    ensures t[base..base + m - 1] == t[base..base + m][..m - 1] && t[base + m - 1] == t[base..base + m][m - 1]
  {
    var x := t[base..base + m];
    assert t[base..base + m - 1] == x[..m - 1];
  }

  lemma ShorterSlice(t: seq<int>, base: nat, u: seq<int>, from: nat, n: nat)
    requires n > 0 && base + n <= |t| && from + n <= |u| && t[base..base + n] == u[from..from + n]
    ensures t[base + n - 1] == u[from + n - 1] && t[base..base + n - 1] == u[from..from + n - 1]
  {
    var x, y := t[base..base + n], u[from..from + n];
    assert x[n - 1] == y[n - 1];
    assert t[base..base + n - 1] == x[..n - 1];
    assert u[from..from + n - 1] == y[..n - 1];
  }

  lemma {:induction false} PaddedTrits(values: seq<int>, rows: nat, cols: nat, width: nat)
    requires |values| == rows * cols && cols <= width && AllTrits(values)
    ensures AllTrits(PadRows(values, rows, cols, width))
    decreases rows
  {
    if rows == 0 {
    } else {
      LastRow(values, rows, cols, width);
      var n := RowBase(rows - 1, cols);
      PaddedTrits(values[..n], rows - 1, cols, width);
      hide PadRows, RowBase;
      TritsConcat(values[n..n + cols], ZeroInts(width - cols));
      TritsConcat(PadRows(values[..n], rows - 1, cols, width), values[n..n + cols] + ZeroInts(width - cols));
    }
  }

  lemma TritsConcat(a: seq<int>, b: seq<int>)
    requires AllTrits(a) && AllTrits(b)
    ensures AllTrits(a + b)
  {
  }

  /** The run of a tensor padded for the device: in either format every accumulator is the plain
      dot product of the unpadded row, and the 40-bit report gives it back. */
  method PaddedRun(values: seq<int>, acts: seq<int>, rows: nat, cols: nat, fmt: Layout)
    returns (r: Result<Run, Failure>)
    requires AllTrits(values) && |values| == rows * cols && |acts| == cols > 0
    ensures r == Err(TooWide) <==> PaddedCols(cols) > 7168
    ensures PaddedCols(cols) <= 7168 ==> (
      && r.Ok? && |r.value.accumulators| == rows == |r.value.reported| && r.value.badWords == 0
      && forall i :: 0 <= i < rows ==> (
        && RowBase(i, cols) + cols <= |values|
        && r.value.accumulators[i] == RowDot(values, acts, RowBase(i, cols), cols)
        && Signed40(r.value.reported[i]) == r.value.accumulators[i]))
  {
    hide RowDot, Signed40, AllTrits, WordsPerRow, DeviceCols;
    var width := PaddedCols(cols);
    if width > 7168 {
      return Err(TooWide);
    }
    PaddedFits(cols, fmt);
    DeviceColsFit(width, fmt);
    hide PaddedCols, LanesIn;
    var trits := PadLoop(values, rows, cols, width);
    PaddedTrits(values, rows, cols, width);
    hide PadRows;
    var padded := acts[..cols] + ZeroInts(width - cols);
    TritsGather(trits, fmt, width, rows);
    r := RunExpectation(trits, padded, width, rows, fmt);
    var run := r.value;
    hide ShapeError;
    forall i: nat | i < rows
      ensures RowBase(i, cols) + cols <= |values|
      ensures run.accumulators[i] == RowDot(values, acts, RowBase(i, cols), cols)
      ensures Signed40(run.reported[i]) == run.accumulators[i]
    {
      assert RowReport(run, trits, padded, width, fmt, i);
      RowSame(values, acts, rows, cols, width, i);
      DotBound(values, acts, RowBase(i, cols), cols);
      Signed40Exact(run.accumulators[i]);
    }
  }

  lemma TritsGather(trits: seq<int>, fmt: Layout, cols: nat, rows: nat)
    requires AllTrits(trits)
    ensures AllGather(trits, fmt, cols, rows)
  {
    hide RowBase, WordsPerRow;
    forall i: nat | i < rows ensures RowGathers(trits, fmt, RowBase(i, cols), WordsPerRow(cols, fmt)) {
      forall w: nat | w < WordsPerRow(cols, fmt) ensures Gathers(trits, fmt, RowBase(i, cols), w) {}
    }
  }

  lemma RowSame(values: seq<int>, acts: seq<int>, rows: nat, cols: nat, width: nat, i: nat)
    requires |values| == rows * cols && |acts| == cols <= width && i < rows
    ensures RowBase(i, cols) + cols <= |values| && RowBase(i, width) + width <= rows * width
    ensures RowDot(PadRows(values, rows, cols, width), acts[..cols] + ZeroInts(width - cols), RowBase(i, width), width)
         == RowDot(values, acts, RowBase(i, cols), cols)
  {
    hide RowDot, PadRows, RowBase;
    PaddedRow(values, rows, cols, width, i);
    var padded := acts[..cols] + ZeroInts(width - cols);
    assert padded[..cols] == acts[..cols];
    DotOfRow(PadRows(values, rows, cols, width), padded, RowBase(i, width), values, acts, RowBase(i, cols), cols,
             width);
  }

  lemma {:induction false} DotBound(trits: seq<int>, acts: seq<int>, base: nat, n: nat)
    requires base + n <= |trits| && n <= |acts| && AllTrits(trits)
    ensures -128 * n <= RowDot(trits, acts, base, n) <= 128 * n
  {
    hide Stored;
    if n == 0 {
    } else {
      DotBound(trits, acts, base, n - 1);
      StoredExact(acts[n - 1]);
      var t := trits[base + n - 1];
      assert t == -1 || t == 0 || t == 1;
    }
  }

  // ---- The 40-bit report ----

  function Signed40(b: int): int {
    if b >= 0x80_0000_0000 then b - 0x100_0000_0000 else b
  }

  /** A 40-bit report gives back exactly the accumulators of 40 signed bits. */
  lemma Signed40Exact(acc: int)
    ensures Signed40(acc % 0x100_0000_0000) == acc <==> -0x80_0000_0000 <= acc < 0x80_0000_0000
  {
  }
}
