/** The horizontal differencing predictor of readData (section 14 of TIFF 6.0),
    reversed in place on a decoded block buffer. A row of a block is a run of
    words of n bytes (n = 1 for 8-bit samples, n = 2 for 16-bit samples); the
    first spp words (one pixel) are kept and every later word is summed, modulo
    256^n, with the word spp places before it, which has already been summed. */
module Predictor {
  import opened Errors
  import opened Binary

  /** The byte position of word j of a row that starts at `base`. */
  function At(base: nat, j: nat, n: nat): nat
    requires n in {1, 2}
  {
    if n == 1 then base + j else base + 2 * j
  }

  /** 256^n for the two word sizes. */
  function Modulus(n: nat): nat
    requires n in {1, 2}
  {
    if n == 1 then 0x100 else 0x1_0000
  }

  /** v reduced modulo 256^n: the wrap-around of uint8 and uint16 sums. */
  function Wrap(v: int, n: nat): (r: nat)
    requires n in {1, 2}
    ensures r < Modulus(n)
  {
    if n == 1 then v % 0x100 else v % 0x1_0000
  }

  /** The n-byte word at byte position p, in the file's byte order. */
  function Word(s: seq<byte>, order: ByteOrder, p: nat, n: nat): (v: nat)
    requires n in {1, 2} && p + n <= |s|
    ensures v < Modulus(n)
  {
    match order
    case LittleEndian => LittleWord(s, p, n)
    case BigEndian => BigWord(s, p, n)
  }

  /** The n bytes at p, least significant first. */
  function LittleWord(s: seq<byte>, p: nat, n: nat): (v: nat)
    requires p + n <= |s|
    ensures n == 0 ==> v == 0
    ensures n == 1 ==> v < 0x100
    ensures n == 2 ==> v < 0x1_0000
    decreases n
  {
    if n == 0 then 0 else s[p] + 0x100 * LittleWord(s, p + 1, n - 1)
  }

  /** The n bytes at p, most significant first. */
  function BigWord(s: seq<byte>, p: nat, n: nat): (v: nat)
    requires p + n <= |s|
    ensures n == 0 ==> v == 0
    ensures n == 1 ==> v < 0x100
    ensures n == 2 ==> v < 0x1_0000
    decreases n
  {
    if n == 0 then 0 else 0x100 * BigWord(s, p, n - 1) + s[p + n - 1]
  }

  /** The n bytes of a word below 256^n, in the file's byte order. */
  function Encode(order: ByteOrder, v: nat, n: nat): (w: seq<byte>)
    requires n in {1, 2} && v < Modulus(n)
    ensures |w| == n
  {
    Put(order, v, n)
  }

  /** Word is order.Uint16 (and plain byte access for n = 1). */
  lemma WordIsUint(s: seq<byte>, order: ByteOrder, p: nat, n: nat)
    requires n in {1, 2} && p + n <= |s|
    ensures Word(s, order, p, n) == Uint(order, s[p..p + n])
  {
    var b := s[p..p + n];
    if n == 1 {
      assert b == [s[p]];
      assert LittleValue(b) == s[p] + 256 * LittleValue([]);
      assert BigValue(b) == 256 * BigValue([]) + s[p];
    } else {
      assert b == [s[p], s[p + 1]];
      assert b[1..] == [s[p + 1]] && b[..1] == [s[p]];
      assert LittleValue([s[p + 1]]) == s[p + 1] + 256 * LittleValue([]);
      assert BigValue([s[p]]) == 256 * BigValue([]) + s[p];
    }
  }

  /** `s` with the one or two bytes at p replaced by `w`. */
  function Store(s: seq<byte>, p: nat, w: seq<byte>): (r: seq<byte>)
    requires p + |w| <= |s| && 1 <= |w| <= 2
    ensures |r| == |s|
  {
    if |w| == 1 then s[p := w[0]] else s[p := w[0]][p + 1 := w[1]]
  }

  /** Storing changes exactly the stored bytes. */
  lemma StoreFrame(s: seq<byte>, p: nat, w: seq<byte>)
    requires p + |w| <= |s| && 1 <= |w| <= 2
    ensures forall x :: 0 <= x < |s| && !(p <= x < p + |w|) ==> Store(s, p, w)[x] == s[x]
    ensures Store(s, p, w)[p..p + |w|] == w
  {
  }

  /** The word at p plus the word at q, modulo 256^n. */
  function Sum(s: seq<byte>, order: ByteOrder, p: nat, q: nat, n: nat): nat
    requires n in {1, 2} && p + n <= |s| && q + n <= |s|
  {
    Wrap(Word(s, order, p, n) + Word(s, order, q, n), n)
  }

  /** Words spp..j - 1 of the row starting at `base` summed, word by word from
      the left, each with the word spp places before it (which is already
      summed): the buffer as the predictor loop leaves it on reaching word j. */
  function SumRow(s: seq<byte>, order: ByteOrder, n: nat, spp: nat, base: nat, j: nat): (r: seq<byte>)
    requires n in {1, 2} && 1 <= spp <= j && (j == spp || At(base, j, n) <= |s|)
    ensures |r| == |s|
    decreases j
  {
    if j == spp then s
    else
      var prev := SumRow(s, order, n, spp, base, j - 1);
      var p := At(base, j - 1, n);
      Store(prev, p, Encode(order, Sum(prev, order, p, At(base, j - 1 - spp, n), n), n))
  }

  /** Whether every word of the row up to `end` lies inside the buffer. */
  predicate RowFits(s: seq<byte>, n: nat, spp: nat, base: nat, end: nat)
    requires n in {1, 2}
  {
    end == spp || At(base, end, n) <= |s|
  }

  /** Reversing words spp..end - 1 of the row starting at `base`; None where
      the buffer ends before a word the loop reads (an index-out-of-range
      panic, which the loop reaches exactly when the last word does not
      fit). */
  function UndiffRow(s: seq<byte>, order: ByteOrder, n: nat, spp: nat, base: nat, end: nat): Option<seq<byte>>
    requires n in {1, 2} && 1 <= spp <= end
  {
    if RowFits(s, n, spp, base, end) then Some(SumRow(s, order, n, spp, base, end)) else None
  }

  /** The words after the first pixel of a row `width` pixels wide. */
  function RowWords(width: int, spp: nat): nat {
    if width >= 1 then (width - 1) * spp else 0
  }

  /** The remaining rows, each `spp + k` words, after a row's outcome `r`. */
  function ThenRows(r: Option<seq<byte>>, order: ByteOrder, n: nat, spp: nat, k: nat, base: nat, rows: nat): Option<seq<byte>>
    requires n in {1, 2} && 1 <= spp
    decreases rows, 1
  {
    match r
    case None => None
    case Some(s) => UndiffRows(s, order, n, spp, k, base, rows)
  }

  /** Reversing `rows` rows of `spp + k` words, the first starting at `base`. */
  function UndiffRows(s: seq<byte>, order: ByteOrder, n: nat, spp: nat, k: nat, base: nat, rows: nat): Option<seq<byte>>
    requires n in {1, 2} && 1 <= spp
    decreases rows, 0
  {
    if rows == 0 then Some(s)
    else ThenRows(UndiffRow(s, order, n, spp, base, spp + k), order, n, spp, k, At(base, spp + k, n), rows - 1)
  }

  /** The predictor step of readData for a block whose clipped rectangle is
      `width` by `height` pixels: only the horizontal predictor on 16- or 8-bit
      samples changes the buffer; BitsPerSample[0] on an empty list panics. */
  function Undiff(s: seq<byte>, order: ByteOrder, predictor: nat, prHorizontal: nat, bits: seq<nat>,
                  width: int, height: int): (r: Option<seq<byte>>)
    ensures predictor != prHorizontal ==> r == Some(s)
    ensures predictor == prHorizontal && |bits| > 0 && bits[0] !in {8, 16} ==> r == Some(s)
    ensures predictor == prHorizontal && |bits| == 0 ==> r.None?
    ensures r.Some? ==> |r.value| == |s|
  {
    if predictor != prHorizontal then Some(s)
    else if |bits| == 0 then None
    else
      var rows := if height > 0 then height else 0;
      var r :=
        if bits[0] == 16 then UndiffRows(s, order, 2, |bits|, RowWords(width, |bits|), 0, rows)
        else if bits[0] == 8 then UndiffRows(s, order, 1, |bits|, RowWords(width, |bits|), 0, rows)
        else Some(s);
      UndiffRowsLength(s, order, 2, |bits|, RowWords(width, |bits|), 0, rows);
      UndiffRowsLength(s, order, 1, |bits|, RowWords(width, |bits|), 0, rows);
      r
  }

  /** Word positions are n bytes apart and increasing. */
  lemma AtOrder(base: nat, i: nat, k: nat, n: nat)
    requires n in {1, 2} && i < k
    ensures At(base, i, n) + n <= At(base, k, n)
    ensures At(base, i + 1, n) == At(base, i, n) + n
  {
  }

  /** Reversed rows keep the buffer's length. */
  lemma {:induction false} UndiffRowsLength(s: seq<byte>, order: ByteOrder, n: nat, spp: nat, k: nat, base: nat, rows: nat)
    requires n in {1, 2} && 1 <= spp
    ensures var r := UndiffRows(s, order, n, spp, k, base, rows); r.Some? ==> |r.value| == |s|
    decreases rows
  {
    if rows > 0 {
      var row := UndiffRow(s, order, n, spp, base, spp + k);
      if row.Some? {
        UndiffRowsLength(row.value, order, n, spp, k, At(base, spp + k, n), rows - 1);
      }
    }
  }

  /** Words whose bytes agree are equal. */
  lemma WordFrame(s: seq<byte>, t: seq<byte>, order: ByteOrder, a: nat, n: nat)
    requires n in {1, 2} && a + n <= |s| && a + n <= |t|
    requires forall x :: a <= x < a + n ==> s[x] == t[x]
    ensures Word(s, order, a, n) == Word(t, order, a, n)
  {
  }

  /** Equal words have equal bytes. */
  lemma WordBytes(s: seq<byte>, t: seq<byte>, order: ByteOrder, a: nat, n: nat)
    requires n in {1, 2} && a + n <= |s| && a + n <= |t|
    requires Word(s, order, a, n) == Word(t, order, a, n)
    ensures forall x :: a <= x < a + n ==> s[x] == t[x]
  {
    WordIsUint(s, order, a, n);
    WordIsUint(t, order, a, n);
    PutUint(order, s[a..a + n]);
    PutUint(order, t[a..a + n]);
    assert s[a..a + n] == t[a..a + n];
    forall x | a <= x < a + n
      ensures s[x] == t[x]
    {
      assert s[x] == s[a..a + n][x - a];
    }
  }

  /** After one step the summed word sits at p. */
  lemma StoreSum(s: seq<byte>, order: ByteOrder, p: nat, q: nat, n: nat)
    requires n in {1, 2} && p + n <= |s| && q + n <= |s|
    ensures Word(Store(s, p, Encode(order, Sum(s, order, p, q, n), n)), order, p, n) == Sum(s, order, p, q, n)
  {
    var sum := Sum(s, order, p, q, n);
    StoredWord(s, order, p, sum, n);
  }

  /** The word stored at p reads back. */
  lemma StoredWord(s: seq<byte>, order: ByteOrder, p: nat, v: nat, n: nat)
    requires n in {1, 2} && p + n <= |s| && v < Modulus(n)
    ensures Word(Store(s, p, Encode(order, v, n)), order, p, n) == v
  {
    var w := Put(order, v, n);
    StoreFrame(s, p, w);
    WordIsUint(Store(s, p, w), order, p, n);
    assert Pow256(1) == 256 && Pow256(2) == 0x1_0000;
    UintPut(order, v, n);
  }

  /** `r` is the buffer as the loop leaves it on reaching word j of the row. */
  predicate Reached(s: seq<byte>, r: seq<byte>, order: ByteOrder, n: nat, spp: nat, base: nat, j: nat) {
    n in {1, 2} && 1 <= spp <= j && (j == spp || At(base, j, n) <= |s|) &&
    r == SumRow(s, order, n, spp, base, j)
  }

  /** `x` and `y` have the same length and differ at most in bytes lo..hi - 1. */
  predicate Agree(x: seq<byte>, y: seq<byte>, lo: nat, hi: nat) {
    |x| == |y| && forall k :: 0 <= k < |x| && !(lo <= k < hi) ==> x[k] == y[k]
  }

  /** Differences in adjacent ranges add up. */
  lemma AgreeTrans(x: seq<byte>, y: seq<byte>, z: seq<byte>, lo: nat, mid: nat, hi: nat)
    requires lo <= mid <= hi && Agree(x, y, lo, mid) && Agree(y, z, mid, hi)
    ensures Agree(x, z, lo, hi)
  {
  }

  /** Passing word j - 1 changes only the bytes of word j - 1. */
  lemma SumRowStepFrame(s: seq<byte>, prev: seq<byte>, next: seq<byte>, order: ByteOrder, n: nat, spp: nat,
                        base: nat, j: nat)
    requires 0 < j && Reached(s, prev, order, n, spp, base, j - 1) && Reached(s, next, order, n, spp, base, j)
    ensures Agree(prev, next, At(base, j - 1, n), At(base, j, n))
  {
    AtOrder(base, j - 1, j, n);
    var p := At(base, j - 1, n);
    StoreFrame(prev, p, Encode(order, Sum(prev, order, p, At(base, j - 1 - spp, n), n), n));
  }

  /** The buffer one word earlier is reached too. */
  lemma ReachedBefore(s: seq<byte>, r: seq<byte>, order: ByteOrder, n: nat, spp: nat, base: nat, j: nat)
    requires Reached(s, r, order, n, spp, base, j) && spp < j
    ensures Reached(s, SumRow(s, order, n, spp, base, j - 1), order, n, spp, base, j - 1)
  {
    AtOrder(base, j - 1, j, n);
  }

  /** Going on from word a to word b changes only the bytes of words a..b - 1. */
  lemma {:induction false} SumRowFrame(s: seq<byte>, ra: seq<byte>, rb: seq<byte>, order: ByteOrder, n: nat,
                                       spp: nat, base: nat, a: nat, b: nat)
    requires Reached(s, ra, order, n, spp, base, a) && Reached(s, rb, order, n, spp, base, b) && a <= b
    ensures Agree(ra, rb, At(base, a, n), At(base, b, n))
    decreases b
  {
    if a < b {
      ReachedBefore(s, rb, order, n, spp, base, b);
      AtOrder(base, b - 1, b, n);
      var mid := SumRow(s, order, n, spp, base, b - 1);
      SumRowFrame(s, ra, mid, order, n, spp, base, a, b - 1);
      SumRowStepFrame(s, mid, rb, order, n, spp, base, b);
      AgreeTrans(ra, mid, rb, At(base, a, n), At(base, b - 1, n), At(base, b, n));
    }
  }

  /** A word outside words a..b - 1 is the same on reaching word a and on
      reaching word b. */
  lemma SumRowWord(s: seq<byte>, ra: seq<byte>, rb: seq<byte>, order: ByteOrder, n: nat, spp: nat, base: nat,
                   a: nat, b: nat, c: nat)
    requires Reached(s, ra, order, n, spp, base, a) && Reached(s, rb, order, n, spp, base, b) && a <= b
    requires c + n <= |s| && (c + n <= At(base, a, n) || At(base, b, n) <= c)
    ensures |ra| == |rb| == |s| && Word(rb, order, c, n) == Word(ra, order, c, n)
  {
    SumRowFrame(s, ra, rb, order, n, spp, base, a, b);
    WordFrame(rb, ra, order, c, n);
  }

  /** Passing word i stores at it the sum of the word and the word spp places
      before it. */
  lemma SumRowStep(s: seq<byte>, before: seq<byte>, after: seq<byte>, order: ByteOrder, n: nat, spp: nat,
                   base: nat, i: nat, p: nat, q: nat)
    requires Reached(s, before, order, n, spp, base, i) && Reached(s, after, order, n, spp, base, i + 1)
    requires p == At(base, i, n) && q == At(base, i - spp, n)
    ensures p + n <= |s| && q + n <= |s| && |before| == |after| == |s|
    ensures Word(after, order, p, n) == Wrap(Word(before, order, p, n) + Word(before, order, q, n), n)
  {
    AtOrder(base, i, i + 1, n);
    StoreSum(before, order, p, q, n);
  }

  /** Word i of the reversed row is the sum made when the loop passed it. */
  lemma WordSummedAt(s: seq<byte>, r: seq<byte>, before: seq<byte>, order: ByteOrder, n: nat, spp: nat,
                     base: nat, i: nat, end: nat, p: nat, q: nat)
    requires Reached(s, r, order, n, spp, base, end) && Reached(s, before, order, n, spp, base, i) && i < end
    requires p == At(base, i, n) && q == At(base, i - spp, n)
    ensures p + n <= |s| && q + n <= |s| && |r| == |before| == |s|
    ensures Word(r, order, p, n) == Wrap(Word(before, order, p, n) + Word(before, order, q, n), n)
  {
    AtOrder(base, i, end, n);
    AtOrder(base, i - spp, i, n);
    var after := SumRow(s, order, n, spp, base, i + 1);
    SumRowStep(s, before, after, order, n, spp, base, i, p, q);
    SumRowWord(s, after, r, order, n, spp, base, i + 1, end, p);
  }

  /** When the loop passes word i, the word is still as in `s`, and the word
      spp places before it already has its final value. */
  lemma WordsBeforeSum(s: seq<byte>, r: seq<byte>, before: seq<byte>, order: ByteOrder, n: nat, spp: nat,
                       base: nat, i: nat, end: nat, p: nat, q: nat)
    requires Reached(s, r, order, n, spp, base, end) && Reached(s, before, order, n, spp, base, i) && i < end
    requires p == At(base, i, n) && q == At(base, i - spp, n)
    ensures p + n <= |s| && q + n <= |s| && |r| == |before| == |s|
    ensures Word(before, order, p, n) == Word(s, order, p, n)
    ensures Word(before, order, q, n) == Word(r, order, q, n)
  {
    AtOrder(base, i, end, n);
    AtOrder(base, i - spp, i, n);
    SumRowWord(s, s, before, order, n, spp, base, spp, i, p);
    SumRowWord(s, before, r, order, n, spp, base, i, end, q);
  }

  /** Word i of a reversed row is its old value plus the final value of the
      word spp places before it, modulo 256^n. */
  lemma RowRecurrence(s: seq<byte>, r: seq<byte>, order: ByteOrder, n: nat, spp: nat, base: nat, i: nat, end: nat)
    requires Reached(s, r, order, n, spp, base, end) && spp <= i < end
    ensures |r| == |s| && At(base, end, n) <= |s| && WordSummed(s, r, order, n, spp, base, i, end)
  {
    AtOrder(base, i, end, n);
    var before := SumRow(s, order, n, spp, base, i);
    var p := At(base, i, n);
    var q := At(base, i - spp, n);
    WordSummedAt(s, r, before, order, n, spp, base, i, end, p, q);
    WordsBeforeSum(s, r, before, order, n, spp, base, i, end, p, q);
  }

  /** Every byte outside words spp..end - 1 of the row is the same in `s`
      and `r`: the row's first pixel and the rest of the buffer. */
  predicate RowKept(s: seq<byte>, r: seq<byte>, n: nat, spp: nat, base: nat, end: nat)
    requires n in {1, 2} && |r| == |s|
  {
    forall x :: 0 <= x < |s| && !(At(base, spp, n) <= x < At(base, end, n)) ==> r[x] == s[x]
  }

  /** Word i of the row in `r` is the same word of `s` plus the word of `r`
      spp places before it, modulo 256^n. */
  predicate WordSummed(s: seq<byte>, r: seq<byte>, order: ByteOrder, n: nat, spp: nat, base: nat, i: nat, end: nat)
    requires n in {1, 2} && 1 <= spp <= i < end && At(base, end, n) <= |s| == |r|
  {
    Word(r, order, At(base, i, n), n) ==
      Wrap(Word(s, order, At(base, i, n), n) + Word(r, order, At(base, i - spp, n), n), n)
  }

  /** Every word spp..end - 1 of the row is summed. */
  predicate RowSummed(s: seq<byte>, r: seq<byte>, order: ByteOrder, n: nat, spp: nat, base: nat, end: nat)
    requires n in {1, 2} && 1 <= spp <= end && At(base, end, n) <= |s| == |r|
  {
    forall i :: spp <= i < end ==> WordSummed(s, r, order, n, spp, base, i, end)
  }

  /** The predictor's promise for a row that fits: the first pixel and every
      byte outside the row are unchanged, and every later word is the sum,
      modulo 256^n, of its old value and the new value of the word spp places
      before it. */
  lemma UndiffRowSums(s: seq<byte>, order: ByteOrder, n: nat, spp: nat, base: nat, end: nat)
    requires n in {1, 2} && 1 <= spp <= end && At(base, end, n) <= |s|
    ensures UndiffRow(s, order, n, spp, base, end).Some?
    ensures var r := UndiffRow(s, order, n, spp, base, end).value;
      |r| == |s| && RowKept(s, r, n, spp, base, end) && RowSummed(s, r, order, n, spp, base, end)
  {
    var r := SumRow(s, order, n, spp, base, end);
    SumRowFrame(s, s, r, order, n, spp, base, spp, end);
    RowSums(s, r, order, n, spp, base, end);
  }

  /** Every word of the row obeys the recurrence. */
  lemma RowSums(s: seq<byte>, r: seq<byte>, order: ByteOrder, n: nat, spp: nat, base: nat, end: nat)
    requires n in {1, 2} && 1 <= spp <= end && At(base, end, n) <= |s|
    requires r == SumRow(s, order, n, spp, base, end)
    ensures |r| == |s| && RowSummed(s, r, order, n, spp, base, end)
  {
    forall i | spp <= i < end
      ensures WordSummed(s, r, order, n, spp, base, i, end)
    {
      RowRecurrence(s, r, order, n, spp, base, i, end);
    }
  }

  /** `d` is `x` with words spp.. of the row starting at `base` replaced by
      their differences, modulo 256^n, from the word spp places before: the
      encoding the predictor reverses. */
  predicate Differenced(d: seq<byte>, x: seq<byte>, order: ByteOrder, n: nat, spp: nat, base: nat, end: nat)
    requires n in {1, 2} && 1 <= spp <= end
    requires |d| == |x| && At(base, end, n) <= |x|
  {
    RowKept(x, d, n, spp, base, end) &&
    (forall i {:trigger Word(d, order, At(base, i, n), n)} :: spp <= i < end ==>
      Word(d, order, At(base, i, n), n) ==
        Wrap(Word(x, order, At(base, i, n), n) - Word(x, order, At(base, i - spp, n), n), n))
  }

  /** The predictor reverses the differencing: a row encoded by differences
      decodes to the row it was computed from. */
  lemma UndiffRowRoundTrip(d: seq<byte>, x: seq<byte>, order: ByteOrder, n: nat, spp: nat, base: nat, end: nat)
    requires n in {1, 2} && 1 <= spp <= end
    requires |d| == |x| && At(base, end, n) <= |x|
    requires Differenced(d, x, order, n, spp, base, end)
    ensures UndiffRow(d, order, n, spp, base, end) == Some(x)
  {
    UndiffRowSums(d, order, n, spp, base, end);
    var r := UndiffRow(d, order, n, spp, base, end).value;
    // Every word of the row, in increasing order, decodes to the word of x.
    forall i | 0 <= i < end
      ensures Word(r, order, At(base, i, n), n) == Word(x, order, At(base, i, n), n)
    {
      RowWordDecodes(d, x, r, order, n, spp, base, end, i);
    }
    forall p | 0 <= p < |x|
      ensures r[p] == x[p]
    {
      if At(base, spp, n) <= p < At(base, end, n) {
        var i := if n == 1 then p - base else (p - base) / 2;
        assert At(base, i, n) <= p < At(base, i, n) + n;
        var a := At(base, i, n);
        WordBytes(r, x, order, a, n);
      }
    }
    assert r == x;
  }

  /** Word i of the decoded row equals word i of x, by strong induction on i. */
  lemma {:induction false} RowWordDecodes(d: seq<byte>, x: seq<byte>, r: seq<byte>, order: ByteOrder,
                                          n: nat, spp: nat, base: nat, end: nat, i: nat)
    requires n in {1, 2} && 1 <= spp <= end && i < end
    requires |d| == |x| == |r| && At(base, end, n) <= |x|
    requires Differenced(d, x, order, n, spp, base, end)
    requires RowKept(d, r, n, spp, base, end) && RowSummed(d, r, order, n, spp, base, end)
    ensures Word(r, order, At(base, i, n), n) == Word(x, order, At(base, i, n), n)
    decreases i
  {
    var a := At(base, i, n);
    if i < spp {
      AtOrder(base, i, spp, n);
      WordFrame(r, d, order, a, n);
      WordFrame(d, x, order, a, n);
    } else {
      RowWordDecodes(d, x, r, order, n, spp, base, end, i - spp);
      assert WordSummed(d, r, order, n, spp, base, i, end);
      var b := At(base, i - spp, n);
      AtOrder(base, i, end, n);
      AtOrder(base, i - spp, i, n);
      DecodeStep(Word(r, order, a, n), Word(d, order, a, n), Word(r, order, b, n),
                 Word(x, order, a, n), Word(x, order, b, n), n);
    }
  }

  /** A word summed with the decoded word before it, where the difference was
      taken from the same word, is the original word. */
  lemma DecodeStep(wr: nat, wd: nat, wrp: nat, wx: nat, wxp: nat, n: nat)
    requires n in {1, 2} && wx < Modulus(n) && wxp < Modulus(n)
    requires wr == Wrap(wd + wrp, n) && wd == Wrap(wx - wxp, n) && wrp == wxp
    ensures wr == wx
  {
    ModSumDiff(wx, wxp, Modulus(n));
  }

  /** ((a - b) mod P + b) mod P == a for a, b below P. */
  lemma ModSumDiff(a: nat, b: nat, P: nat)
    requires 0 <= a < P && 0 <= b < P
    ensures ((a - b) % P + b) % P == a
  {
    if a >= b {
      assert (a - b) % P == a - b;
    } else {
      assert (a - b) % P == a - b + P;
      assert a - b + P + b == a + P;
    }
  }

  /** The statement order.PutUint16(buf[off:off+2], v1 + v0) of readData,
      with v1 and v0 read by order.Uint16 at off and off - bpp: the 16-bit sum
      of the two words is stored at off. */
  method AddWord16(buf: array<byte>, order: ByteOrder, off: nat, bpp: nat)
    requires bpp <= off && off + 2 <= buf.Length
    modifies buf
    ensures buf[..] == Store(old(buf[..]), off, Encode(order, Sum(old(buf[..]), order, off, off - bpp, 2), 2))
  {
    var v0 := Uint16(order, buf[off - bpp..off - bpp + 2]);
    var v1 := Uint16(order, buf[off..off + 2]);
    var w := Put(order, (v1 + v0) % 0x1_0000, 2);
    ghost var s := buf[..];
    assert w == Encode(order, Sum(s, order, off, off - bpp, 2), 2) by {
      WordIsUint(s, order, off, 2);
      WordIsUint(s, order, off - bpp, 2);
      assert s[off..off + 2][..2] == s[off..off + 2];
      assert s[off - bpp..off - bpp + 2][..2] == s[off - bpp..off - bpp + 2];
    }
    buf[off] := w[0];
    buf[off + 1] := w[1];
    assert buf[..] == Store(s, off, w);
  }

  /** The statement buf[off] += buf[off-spp] of readData: the 8-bit sum of the
      two bytes is stored at off. */
  method AddByte(buf: array<byte>, order: ByteOrder, off: nat, spp: nat)
    requires spp <= off < buf.Length
    modifies buf
    ensures buf[..] == Store(old(buf[..]), off, Encode(order, Sum(old(buf[..]), order, off, off - spp, 1), 1))
  {
    buf[off] := ((buf[off] as int + buf[off - spp] as int) % 0x100) as byte;
  }

  /** One pass of the 16-bit inner loop: word j of the row is summed. */
  method SumWord16(buf: array<byte>, order: ByteOrder, off: nat, bpp: nat,
                   ghost s0: seq<byte>, ghost spp: nat, ghost base: nat, ghost j: nat)
    requires 1 <= spp <= j && bpp == 2 * spp && off == At(base, j, 2) && off + 2 <= buf.Length == |s0|
    requires buf[..] == SumRow(s0, order, 2, spp, base, j)
    modifies buf
    ensures buf[..] == SumRow(s0, order, 2, spp, base, j + 1)
  {
    assert SumRow(s0, order, 2, spp, base, j + 1) ==
      Store(buf[..], off, Encode(order, Sum(buf[..], order, off, off - bpp, 2), 2));
    AddWord16(buf, order, off, bpp);
  }

  /** The inner loop of readData's 16-bit predictor over one row: `start` is
      the offset just past the row's first pixel and `limit` the loop bound
      (xmax - xmin - 1) * bpp, which is twice the row's k summed words. The
      result is false where Go panics. */
  method ReverseRow16(buf: array<byte>, order: ByteOrder, spp: nat, start: nat, limit: int, ghost base: nat, ghost k: nat)
      returns (ok: bool, off: nat)
    requires 1 <= spp && start == base + 2 * spp
    requires limit == 2 * k || (limit <= 0 && k == 0)
    modifies buf
    ensures ok == RowFits(old(buf[..]), 2, spp, base, spp + k)
    ensures ok ==> buf[..] == SumRow(old(buf[..]), order, 2, spp, base, spp + k) && off == base + 2 * (spp + k)
  {
    ghost var s0 := buf[..];
    var bpp := spp * 2;
    var o := start;
    var x := 0;
    ghost var j := spp;
    while x < limit
      invariant x == 2 * (j - spp) && spp <= j <= spp + k
      invariant o == start + x && o == At(base, j, 2) && (j == spp || o <= |s0|)
      invariant buf[..] == SumRow(s0, order, 2, spp, base, j)
      decreases limit - x
    {
      if o + 2 > buf.Length {
        return false, o;
      }
      SumWord16(buf, order, o, bpp, s0, spp, base, j);
      o := o + 2;
      x := x + 2;
      j := j + 1;
    }
    assert j == spp + k;
    return true, o;
  }

  /** One pass of the 8-bit inner loop: byte j of the row is summed. */
  method SumByte(buf: array<byte>, order: ByteOrder, off: nat,
                 spp: nat, ghost s0: seq<byte>, ghost base: nat, ghost j: nat)
    requires 1 <= spp <= j && off == At(base, j, 1) && off < buf.Length == |s0|
    requires buf[..] == SumRow(s0, order, 1, spp, base, j)
    modifies buf
    ensures buf[..] == SumRow(s0, order, 1, spp, base, j + 1)
  {
    assert SumRow(s0, order, 1, spp, base, j + 1) ==
      Store(buf[..], off, Encode(order, Sum(buf[..], order, off, off - spp, 1), 1));
    AddByte(buf, order, off, spp);
  }

  /** The inner loop of readData's 8-bit predictor over one row: `start` is
      the offset just past the row's first pixel and `limit` = (xmax - xmin -
      1) * spp the row's k summed bytes. The result is false where Go
      panics. */
  method ReverseRow8(buf: array<byte>, order: ByteOrder, spp: nat, start: nat, limit: int, ghost base: nat, ghost k: nat)
      returns (ok: bool, off: nat)
    requires 1 <= spp && start == base + spp
    requires limit == k || (limit <= 0 && k == 0)
    modifies buf
    ensures ok == RowFits(old(buf[..]), 1, spp, base, spp + k)
    ensures ok ==> buf[..] == SumRow(old(buf[..]), order, 1, spp, base, spp + k) && off == base + spp + k
  {
    ghost var s0 := buf[..];
    var o := start;
    var x := 0;
    ghost var j := spp;
    while x < limit
      invariant x == j - spp && spp <= j <= spp + k
      invariant o == start + x && o == At(base, j, 1) && (j == spp || o <= |s0|)
      invariant buf[..] == SumRow(s0, order, 1, spp, base, j)
      decreases limit - x
    {
      if o >= buf.Length {
        return false, o;
      }
      SumByte(buf, order, o, spp, s0, base, j);
      o := o + 1;
      x := x + 1;
      j := j + 1;
    }
    assert j == spp + k;
    return true, o;
  }


  /** The outer loop of readData's 16-bit predictor: rows ymin..ymax of the
      block, each reversed by the inner loop. */
  method ReverseRows16(buf: array<byte>, order: ByteOrder, spp: nat, limit: int, ghost k: nat, ymin: int, ymax: int)
      returns (ok: bool)
    requires 1 <= spp && (limit == 2 * k || (limit <= 0 && k == 0))
    modifies buf
    ensures var r := UndiffRows(old(buf[..]), order, 2, spp, k, 0, if ymax - ymin > 0 then ymax - ymin else 0);
      ok == r.Some? && (ok ==> buf[..] == r.value)
  {
    ghost var left := if ymax - ymin > 0 then ymax - ymin else 0;
    ghost var spec := UndiffRows(buf[..], order, 2, spp, k, 0, left);
    var off: nat := 0;
    var y := ymin;
    while y < ymax
      invariant left == if ymax - y > 0 then ymax - y else 0
      invariant spec == UndiffRows(buf[..], order, 2, spp, k, off, left)
      decreases ymax - y
    {
      ghost var base := off;
      off := off + spp * 2;
      var rowOk;
      rowOk, off := ReverseRow16(buf, order, spp, off, limit, base, k);
      if !rowOk {
        return false;
      }
      y := y + 1;
      left := left - 1;
    }
    return true;
  }

  /** The outer loop of readData's 8-bit predictor. */
  method ReverseRows8(buf: array<byte>, order: ByteOrder, spp: nat, limit: int, ghost k: nat, ymin: int, ymax: int)
      returns (ok: bool)
    requires 1 <= spp && (limit == k || (limit <= 0 && k == 0))
    modifies buf
    ensures var r := UndiffRows(old(buf[..]), order, 1, spp, k, 0, if ymax - ymin > 0 then ymax - ymin else 0);
      ok == r.Some? && (ok ==> buf[..] == r.value)
  {
    ghost var left := if ymax - ymin > 0 then ymax - ymin else 0;
    ghost var spec := UndiffRows(buf[..], order, 1, spp, k, 0, left);
    var off: nat := 0;
    var y := ymin;
    while y < ymax
      invariant left == if ymax - y > 0 then ymax - y else 0
      invariant spec == UndiffRows(buf[..], order, 1, spp, k, off, left)
      decreases ymax - y
    {
      ghost var base := off;
      off := off + spp;
      var rowOk;
      rowOk, off := ReverseRow8(buf, order, spp, off, limit, base, k);
      if !rowOk {
        return false;
      }
      y := y + 1;
      left := left - 1;
    }
    return true;
  }

  /** The predictor step of readData on the block buffer, 16-bit words first
      and 8-bit bytes second, as written. The result is false where Go panics;
      the buffer's contents are then unspecified. */
  method UndiffBlock(buf: array<byte>, order: ByteOrder, predictor: nat, prHorizontal: nat, bits: seq<nat>,
                     xmin: int, xmax: int, ymin: int, ymax: int) returns (ok: bool)
    modifies buf
    ensures var spec := Undiff(old(buf[..]), order, predictor, prHorizontal, bits, xmax - xmin, ymax - ymin);
      ok == spec.Some? && (ok ==> buf[..] == spec.value)
  {
    if predictor != prHorizontal {
      return true;
    }
    if |bits| == 0 {
      return false;
    }
    var spp := |bits|;
    ghost var k := RowWords(xmax - xmin, spp);
    if bits[0] == 16 {
      var bpp := spp * 2;
      var limit := (xmax - xmin - 1) * bpp;
      assert limit == 2 * k || (limit <= 0 && k == 0) by {
        if xmax - xmin >= 1 {
          assert limit == 2 * ((xmax - xmin - 1) * spp);
        } else {
          MulNonPos(xmax - xmin - 1, bpp);
        }
      }
      ok := ReverseRows16(buf, order, spp, limit, k, ymin, ymax);
    } else if bits[0] == 8 {
      var limit := (xmax - xmin - 1) * spp;
      assert limit == k || (limit <= 0 && k == 0) by {
        if xmax - xmin < 1 {
          MulNonPos(xmax - xmin - 1, spp);
        }
      }
      ok := ReverseRows8(buf, order, spp, limit, k, ymin, ymax);
    } else {
      ok := true;
    }
  }

  lemma MulNonPos(a: int, b: nat)
    requires a <= 0
    ensures a * b <= 0
  {
  }
}
