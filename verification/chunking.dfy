/** `save_to_csv` of split_csv_last_scraper.py: rows are written in chunks to
    numbered files, and the chunk size shrinks after any file over 20 MiB.
    Writing and measuring a file are abstracted to a size oracle: `size(rows)`
    is the byte size of the CSV file written for `rows`. */
module Chunking {
  import opened Text

  const MaxSize := 20 * 1024 * 1024
  const InitialChunkSize := 10000

  /** `int(chunk_size * 0.8)`. */
  function Shrink(c: nat): (r: nat)
    ensures r <= c
    ensures c >= 1 ==> r < c
  {
    c * 4 / 5
  }

  /** The chunk size for the next file, given the size of the file just
      written. */
  function NextChunkSize(c: nat, bytes: nat): (r: nat)
    ensures r <= c
    ensures bytes > MaxSize && c >= 1 ==> r < c
    ensures bytes <= MaxSize ==> r == c
  {
    if bytes > MaxSize then Shrink(c) else c
  }

  /** `f"{filename}_{file_count}.csv"`. */
  function FileName(base: string, k: nat): string {
    base + "_" + Decimal(k) + ".csv"
  }

  /** Different file numbers give different file names. */
  lemma FileNameInjective(base: string, a: nat, b: nat)
    requires FileName(base, a) == FileName(base, b)
    ensures a == b
  {
    var pre := base + "_";
    var da, db := Decimal(a), Decimal(b);
    assert FileName(base, a) == pre + da + ".csv";
    assert FileName(base, b) == pre + db + ".csv";
    assert |da| == |db|;
    assert (pre + da + ".csv")[|pre|..|pre| + |da|] == da;
    assert (pre + db + ".csv")[|pre|..|pre| + |db|] == db;
    DecimalInjective(a, b);
  }

  function Min(a: int, b: int): int {
    if a <= b then a else b
  }

  /** `a * b` on naturals, written as repeated addition so that the slice
      bounds of consecutive files are related by addition only. */
  function Mul(a: nat, b: nat): nat {
    if a == 0 then 0 else Mul(a - 1, b) + b
  }

  /** `Mul` is multiplication. */
  lemma {:induction false} MulIsProduct(a: nat, b: nat)
    ensures Mul(a, b) == a * b
  {
    if a > 0 {
      MulIsProduct(a - 1, b);
      assert (a - 1) * b + b == a * b;
    }
  }

  lemma {:induction false} MulMonoRight(a: nat, b: nat, b': nat)
    requires b' <= b
    ensures Mul(a, b') <= Mul(a, b)
  {
    if a > 0 {
      MulMonoRight(a - 1, b, b');
    }
  }

  lemma {:induction false} MulZero(a: nat)
    ensures Mul(a, 0) == 0
  {
    if a > 0 {
      MulZero(a - 1);
    }
  }

  /** `df.iloc[lo:hi]`: the rows with index in [lo, hi) that exist. */
  function Rows<T>(data: seq<T>, lo: nat, hi: nat): (r: seq<T>)
    ensures r == [] <==> (lo >= |data| || hi <= lo)
    ensures r != [] ==> r == data[lo..Min(hi, |data|)]
  {
    if lo < hi && lo < |data| then data[lo..Min(hi, |data|)] else []
  }

  /** One file written by the loop: the loop's `file_count` and `chunk_size`
      at the time, the file name and the rows in it. */
  datatype ChunkWrite<T> = ChunkWrite(fileNumber: nat, chunkSize: nat, name: string, rows: seq<T>)

  /** The index of the first row the loop asks for in file k with chunk
      size c. */
  function Lo(k: nat, c: nat): nat
    requires k >= 1
  {
    Mul(k - 1, c)
  }

  /** The index of the first row the loop asks for in this file. */
  function Start<T>(w: ChunkWrite<T>): nat
    requires w.fileNumber >= 1
  {
    Lo(w.fileNumber, w.chunkSize)
  }

  /** One past the index of the last row the loop asks for in this file. */
  function Stop<T>(w: ChunkWrite<T>): nat {
    Mul(w.fileNumber, w.chunkSize)
  }

  /** The loop's state when it stops, with every file written on the way. */
  datatype Saved<T> = Saved(files: seq<ChunkWrite<T>>, fileCount: nat, chunkSize: nat)

  function Remaining(n: nat, k: nat, c: nat): nat
    requires k >= 1
  {
    if Lo(k, c) < n then n - Lo(k, c) else 0
  }

  /** The `while True` loop of `save_to_csv` run from `file_count = k` and
      `chunk_size = c` until the first empty slice. */
  function SaveFrom<T>(base: string, data: seq<T>, size: seq<T> -> nat, k: nat, c: nat): Saved<T>
    requires k >= 1
    decreases c, Remaining(|data|, k, c)
  {
    var rows := Rows(data, Lo(k, c), Mul(k, c));
    if rows == [] then Saved([], k, c)
    else
      var rest := SaveFrom(base, data, size, k + 1, NextChunkSize(c, size(rows)));
      Saved([ChunkWrite(k, c, FileName(base, k), rows)] + rest.files, rest.fileCount, rest.chunkSize)
  }

  /** `save_to_csv(filename, data)`: the files written, and the count it
      reports. */
  method SaveToCsv<T>(filename: string, data: seq<T>, size: seq<T> -> nat)
    returns (files: seq<ChunkWrite<T>>, reported: nat)
    ensures files == SaveFrom(filename, data, size, 1, InitialChunkSize).files
    ensures reported == |files|
  {
    var fileCount: nat := 1;
    var chunkSize: nat := InitialChunkSize;
    files := [];
    while true
      invariant fileCount >= 1 && |files| == fileCount - 1
      invariant files + SaveFrom(filename, data, size, fileCount, chunkSize).files
                == SaveFrom(filename, data, size, 1, InitialChunkSize).files
      decreases chunkSize, Remaining(|data|, fileCount, chunkSize)
    {
      var filePath := FileName(filename, fileCount);
      SliceBounds(fileCount, chunkSize);
      var chunk := Rows(data, (fileCount - 1) * chunkSize, fileCount * chunkSize);
      if chunk == [] {
        break;
      }
      SaveFromStep(filename, data, size, fileCount, chunkSize);
      ConcatAssoc(files, ChunkWrite(fileCount, chunkSize, filePath, chunk),
                  SaveFrom(filename, data, size, fileCount + 1, NextChunkSize(chunkSize, size(chunk))).files);
      files := files + [ChunkWrite(fileCount, chunkSize, filePath, chunk)];
      if size(chunk) > MaxSize {
        chunkSize := Shrink(chunkSize);
      }
      fileCount := fileCount + 1;
    }
    reported := fileCount - 1;
  }

  /** The loop's slice bounds are those of `SaveFrom`. */
  lemma SliceBounds(k: nat, c: nat)
    requires k >= 1
    ensures (k - 1) * c == Lo(k, c) && k * c == Mul(k, c)
  {
    MulIsProduct(k - 1, c);
    MulIsProduct(k, c);
  }

  /** One iteration that writes a file: the file, then the loop from the
      next number with the chunk size its byte size leaves, which is closer
      to the end. */
  lemma SaveFromStep<T>(base: string, data: seq<T>, size: seq<T> -> nat, k: nat, c: nat)
    requires k >= 1
    requires Rows(data, Lo(k, c), Mul(k, c)) != []
    ensures var rows := Rows(data, Lo(k, c), Mul(k, c));
            var c' := NextChunkSize(c, size(rows));
            var rest := SaveFrom(base, data, size, k + 1, c');
            && SaveFrom(base, data, size, k, c)
               == Saved([ChunkWrite(k, c, FileName(base, k), rows)] + rest.files, rest.fileCount, rest.chunkSize)
            && (c' < c || Remaining(|data|, k + 1, c') < Remaining(|data|, k, c))
  {
  }

  lemma ConcatAssoc<T>(a: seq<T>, x: T, b: seq<T>)
    ensures a + ([x] + b) == (a + [x]) + b
  {
  }

  /** The slice for file k with chunk size c starts at or past the last row,
      or the chunk size is 0: either way the slice is empty. */
  predicate Exhausted(n: nat, k: nat, c: nat)
    requires k >= 1
  {
    Lo(k, c) >= n || c == 0
  }

  /** The iteration that finds an empty slice stops the loop. */
  lemma SaveFromDone<T>(base: string, data: seq<T>, size: seq<T> -> nat, k: nat, c: nat)
    requires k >= 1
    requires Rows(data, Lo(k, c), Mul(k, c)) == []
    ensures SaveFrom(base, data, size, k, c) == Saved([], k, c)
    ensures Exhausted(|data|, k, c)
  {
  }

  /** Where the loop stops: `file_count` is one past the last file, and the
      next slice would start at or past the last row, or the chunk size has
      dropped to 0. */
  lemma {:induction false} SaveFromStops<T>(base: string, data: seq<T>, size: seq<T> -> nat, k: nat, c: nat)
    requires k >= 1
    ensures var s := SaveFrom(base, data, size, k, c);
            && s.fileCount == k + |s.files|
            && Exhausted(|data|, s.fileCount, s.chunkSize)
            && (s.files == [] ==> s.chunkSize == c)
            && (s.files != [] ==>
                  var last := s.files[|s.files| - 1];
                  s.chunkSize == NextChunkSize(last.chunkSize, size(last.rows)))
    decreases c, Remaining(|data|, k, c)
  {
    var rows := Rows(data, Lo(k, c), Mul(k, c));
    if rows == [] {
      SaveFromDone(base, data, size, k, c);
    } else {
      SaveFromStep(base, data, size, k, c);
      var c' := NextChunkSize(c, size(rows));
      SaveFromStops(base, data, size, k + 1, c');
      LastOfCons(ChunkWrite(k, c, FileName(base, k), rows), SaveFrom(base, data, size, k + 1, c').files);
    }
  }

  lemma LastOfCons<T>(w: ChunkWrite<T>, rest: seq<ChunkWrite<T>>)
    ensures rest == [] ==> ([w] + rest)[|rest|] == w
    ensures rest != [] ==> ([w] + rest)[|rest|] == rest[|rest| - 1]
  {
  }

  /** File `w` is the one numbered `num`, asks for at least one row, and
      holds the rows of its slice that exist. */
  ghost predicate WindowOk<T>(w: ChunkWrite<T>, data: seq<T>, num: nat) {
    && w.fileNumber == num
    && num >= 1
    && w.chunkSize >= 1
    && Start(w) < |data|
    && Stop(w) == Start(w) + w.chunkSize
    && w.rows == data[Start(w)..Min(Stop(w), |data|)]
  }

  /** Files numbered from k on, each holding its own window. */
  ghost predicate WindowsFrom<T>(files: seq<ChunkWrite<T>>, data: seq<T>, k: nat) {
    forall i :: 0 <= i < |files| ==> WindowOk(files[i], data, k + i)
  }

  lemma WindowsCons<T>(w: ChunkWrite<T>, rest: seq<ChunkWrite<T>>, data: seq<T>, k: nat)
    requires WindowOk(w, data, k) && WindowsFrom(rest, data, k + 1)
    ensures WindowsFrom([w] + rest, data, k)
  {
    forall i | 0 <= i < |[w] + rest| ensures WindowOk(([w] + rest)[i], data, k + i) {
      if i > 0 {
        assert ([w] + rest)[i] == rest[i - 1];
        assert WindowOk(rest[i - 1], data, (k + 1) + (i - 1));
      }
    }
  }

  /** What every file written from state (k, c) holds: file i is numbered
      k + i, and holds the rows from index `(k + i - 1) * c_i` up to
      `(k + i) * c_i` or the end of the data, at least one of them. */
  lemma {:induction false} SaveFromWindows<T>(base: string, data: seq<T>, size: seq<T> -> nat, k: nat, c: nat)
    requires k >= 1
    ensures WindowsFrom(SaveFrom(base, data, size, k, c).files, data, k)
    decreases c, Remaining(|data|, k, c)
  {
    var rows := Rows(data, Lo(k, c), Mul(k, c));
    if rows == [] {
      SaveFromDone(base, data, size, k, c);
    } else {
      SaveFromStep(base, data, size, k, c);
      var c' := NextChunkSize(c, size(rows));
      SaveFromWindows(base, data, size, k + 1, c');
      var w := ChunkWrite(k, c, FileName(base, k), rows);
      assert WindowOk(w, data, k);
      WindowsCons(w, SaveFrom(base, data, size, k + 1, c').files, data, k);
    }
  }

  /** Every file is named after its own number. */
  ghost predicate NamedByNumber<T>(files: seq<ChunkWrite<T>>, base: string) {
    forall i :: 0 <= i < |files| ==> files[i].name == FileName(base, files[i].fileNumber)
  }

  /** Each file is named after its own number. */
  lemma {:induction false} SaveFromNames<T>(base: string, data: seq<T>, size: seq<T> -> nat, k: nat, c: nat)
    requires k >= 1
    ensures NamedByNumber(SaveFrom(base, data, size, k, c).files, base)
    decreases c, Remaining(|data|, k, c)
  {
    var rows := Rows(data, Lo(k, c), Mul(k, c));
    if rows == [] {
      SaveFromDone(base, data, size, k, c);
    } else {
      SaveFromStep(base, data, size, k, c);
      var c' := NextChunkSize(c, size(rows));
      SaveFromNames(base, data, size, k + 1, c');
      NamesCons(ChunkWrite(k, c, FileName(base, k), rows), SaveFrom(base, data, size, k + 1, c').files, base);
    }
  }

  lemma NamesCons<T>(w: ChunkWrite<T>, rest: seq<ChunkWrite<T>>, base: string)
    requires w.name == FileName(base, w.fileNumber) && NamedByNumber(rest, base)
    ensures NamedByNumber([w] + rest, base)
  {
    forall i | 0 <= i < |[w] + rest| ensures ([w] + rest)[i].name == FileName(base, ([w] + rest)[i].fileNumber) {
      if i > 0 {
        assert ([w] + rest)[i] == rest[i - 1];
      }
    }
  }

  /** Each file after the first uses the chunk size that its predecessor's
      byte size left. */
  ghost predicate ChunkSizesChained<T>(files: seq<ChunkWrite<T>>, size: seq<T> -> nat) {
    forall i :: 0 <= i < |files| - 1 ==>
      files[i + 1].chunkSize == NextChunkSize(files[i].chunkSize, size(files[i].rows))
  }

  /** The first file uses chunk size c, and each later one the size that its
      predecessor's byte size left. */
  lemma {:induction false} SaveFromChunkSizes<T>(base: string, data: seq<T>, size: seq<T> -> nat, k: nat, c: nat)
    requires k >= 1
    ensures var f := SaveFrom(base, data, size, k, c).files;
            && (f != [] ==> f[0].chunkSize == c)
            && ChunkSizesChained(f, size)
    decreases c, Remaining(|data|, k, c)
  {
    var rows := Rows(data, Lo(k, c), Mul(k, c));
    if rows == [] {
      SaveFromDone(base, data, size, k, c);
    } else {
      SaveFromStep(base, data, size, k, c);
      var c' := NextChunkSize(c, size(rows));
      SaveFromChunkSizes(base, data, size, k + 1, c');
      ChunkSizesCons(ChunkWrite(k, c, FileName(base, k), rows), SaveFrom(base, data, size, k + 1, c').files, size);
    }
  }

  lemma ChunkSizesCons<T>(w: ChunkWrite<T>, rest: seq<ChunkWrite<T>>, size: seq<T> -> nat)
    requires ChunkSizesChained(rest, size)
    requires rest != [] ==> rest[0].chunkSize == NextChunkSize(w.chunkSize, size(w.rows))
    ensures ChunkSizesChained([w] + rest, size)
  {
    var f := [w] + rest;
    forall i | 0 <= i < |f| - 1
      ensures f[i + 1].chunkSize == NextChunkSize(f[i].chunkSize, size(f[i].rows))
    {
      assert f[i + 1] == rest[i];
      if i > 0 {
        assert f[i] == rest[i - 1];
      }
    }
  }

  /** The chunk size never grows, and every file after one over the limit
      uses a strictly smaller chunk size than that file. */
  lemma ChunkSizeNeverGrows<T>(base: string, data: seq<T>, size: seq<T> -> nat, k: nat, c: nat)
    requires k >= 1
    ensures var f := SaveFrom(base, data, size, k, c).files;
            && (forall i :: 0 <= i < |f| ==> f[i].chunkSize <= c)
            && (forall i, j :: 0 <= i < j < |f| ==> f[j].chunkSize <= f[i].chunkSize)
            && (forall i, j :: 0 <= i < j < |f| && size(f[i].rows) > MaxSize ==>
                  f[j].chunkSize < f[i].chunkSize)
  {
    SaveFromWindows(base, data, size, k, c);
    SaveFromChunkSizes(base, data, size, k, c);
    FilesNonIncreasing(SaveFrom(base, data, size, k, c).files, data, size, k, c);
  }

  lemma FilesNonIncreasing<T>(f: seq<ChunkWrite<T>>, data: seq<T>, size: seq<T> -> nat, k: nat, c: nat)
    requires WindowsFrom(f, data, k) && ChunkSizesChained(f, size)
    requires f != [] ==> f[0].chunkSize == c
    ensures forall i :: 0 <= i < |f| ==> f[i].chunkSize <= c
    ensures forall i, j :: 0 <= i < j < |f| ==> f[j].chunkSize <= f[i].chunkSize
    ensures forall i, j :: 0 <= i < j < |f| && size(f[i].rows) > MaxSize ==> f[j].chunkSize < f[i].chunkSize
  {
    assert forall i :: 0 <= i < |f| ==> WindowOk(f[i], data, k + i);
    forall j | 0 <= j < |f|
      ensures forall i :: 0 <= i < j ==>
                f[j].chunkSize <= f[i].chunkSize
                && (size(f[i].rows) > MaxSize ==> f[j].chunkSize < f[i].chunkSize)
    {
      NonIncreasingUpTo(f, size, j);
    }
    forall i | 0 <= i < |f| ensures f[i].chunkSize <= c {
      if i > 0 {
        NonIncreasingUpTo(f, size, i);
      }
    }
  }

  lemma {:induction false} NonIncreasingUpTo<T>(f: seq<ChunkWrite<T>>, size: seq<T> -> nat, j: nat)
    requires j < |f|
    requires forall i :: 0 <= i < |f| ==> f[i].chunkSize >= 1
    requires forall i :: 0 <= i < |f| - 1 ==> f[i + 1].chunkSize == NextChunkSize(f[i].chunkSize, size(f[i].rows))
    ensures forall i :: 0 <= i < j ==> f[j].chunkSize <= f[i].chunkSize
    ensures forall i :: 0 <= i < j && size(f[i].rows) > MaxSize ==> f[j].chunkSize < f[i].chunkSize
  {
    if j > 0 {
      NonIncreasingUpTo(f, size, j - 1);
    }
  }

  /** No gap: each file starts at or before the end of the file before it,
      so a shrink can make two files share rows but never skips one. */
  lemma NoGapBetweenFiles<T>(base: string, data: seq<T>, size: seq<T> -> nat, k: nat, c: nat)
    requires k >= 1
    ensures var f := SaveFrom(base, data, size, k, c).files;
            && (f != [] ==> f[0].fileNumber == k && Start(f[0]) == Lo(k, c))
            && forall i {:trigger f[i]} :: 0 <= i < |f| - 1 ==>
                 f[i + 1].fileNumber == k + i + 1 && Start(f[i + 1]) <= Min(Stop(f[i]), |data|)
  {
    SaveFromWindows(base, data, size, k, c);
    SaveFromChunkSizes(base, data, size, k, c);
    FilesNoGap(SaveFrom(base, data, size, k, c).files, data, size, k);
  }

  lemma FilesNoGap<T>(f: seq<ChunkWrite<T>>, data: seq<T>, size: seq<T> -> nat, k: nat)
    requires WindowsFrom(f, data, k) && ChunkSizesChained(f, size)
    ensures forall i {:trigger f[i]} :: 0 <= i < |f| - 1 ==>
              f[i + 1].fileNumber == k + i + 1 && Start(f[i + 1]) <= Min(Stop(f[i]), |data|)
  {
    forall i {:trigger f[i]} | 0 <= i < |f| - 1
      ensures f[i + 1].fileNumber == k + i + 1 && Start(f[i + 1]) <= Min(Stop(f[i]), |data|)
    {
      assert WindowOk(f[i], data, k + i) && WindowOk(f[i + 1], data, k + (i + 1));
      NextFileStart(f[i], f[i + 1], data, k + i);
    }
  }

  /** File n + 1, with a chunk size no larger than file n's, starts at or
      before the end of file n. */
  lemma NextFileStart<T>(w: ChunkWrite<T>, w': ChunkWrite<T>, data: seq<T>, n: nat)
    requires WindowOk(w, data, n) && WindowOk(w', data, n + 1)
    requires w'.chunkSize <= w.chunkSize
    ensures Start(w') <= Min(Stop(w), |data|)
  {
    MulMonoRight(n, w.chunkSize, w'.chunkSize);
  }

  /** With chunk size 0 the first slice is already empty: the loop writes
      nothing more, whatever rows remain. */
  lemma ZeroChunkStops<T>(base: string, data: seq<T>, size: seq<T> -> nat, k: nat)
    requires k >= 1
    ensures SaveFrom(base, data, size, k, 0) == Saved([], k, 0)
  {
    MulZero(k - 1);
  }

  /** The row with index j is in file w, at the position its index gives. */
  ghost predicate RowInFile<T>(w: ChunkWrite<T>, data: seq<T>, j: nat) {
    && w.fileNumber >= 1
    && Start(w) <= j < Min(Stop(w), |data|)
    && j - Start(w) < |w.rows|
    && w.rows[j - Start(w)] == data[j]
  }

  /** The row with index j is in one of the files. */
  ghost predicate RowWritten<T>(files: seq<ChunkWrite<T>>, data: seq<T>, j: nat) {
    exists i :: 0 <= i < |files| && RowInFile(files[i], data, j)
  }

  /** A row inside the first slice lands in the first file. */
  lemma RowInFirstFile<T>(base: string, data: seq<T>, size: seq<T> -> nat, k: nat, c: nat, j: nat)
    requires k >= 1 && Lo(k, c) <= j < Mul(k, c) && j < |data|
    ensures SaveFrom(base, data, size, k, c).files != []
    ensures RowInFile(SaveFrom(base, data, size, k, c).files[0], data, j)
  {
    var lo, hi := Lo(k, c), Mul(k, c);
    var rows := Rows(data, lo, hi);
    assert rows == data[lo..Min(hi, |data|)];
    var w := ChunkWrite(k, c, FileName(base, k), rows);
    assert SaveFrom(base, data, size, k, c).files[0] == w;
    assert rows[j - lo] == data[j];
  }

  lemma {:induction false} RowCovered<T>(base: string, data: seq<T>, size: seq<T> -> nat, k: nat, c: nat, j: nat)
    requires k >= 1 && Lo(k, c) <= j < |data|
    requires SaveFrom(base, data, size, k, c).chunkSize > 0
    ensures RowWritten(SaveFrom(base, data, size, k, c).files, data, j)
    decreases c, Remaining(|data|, k, c)
  {
    if c == 0 {
      ZeroChunkStops(base, data, size, k);
    } else if j < Mul(k, c) {
      RowInFirstFile(base, data, size, k, c, j);
      assert RowInFile(SaveFrom(base, data, size, k, c).files[0], data, j);
    } else {
      var rows := Rows(data, Lo(k, c), Mul(k, c));
      SaveFromStep(base, data, size, k, c);
      var c' := NextChunkSize(c, size(rows));
      MulMonoRight(k, c, c');
      RowCovered(base, data, size, k + 1, c', j);
      RowWrittenCons(ChunkWrite(k, c, FileName(base, k), rows), SaveFrom(base, data, size, k + 1, c').files, data, j);
    }
  }

  /** A row written in some file is still written when a file is put in
      front. */
  lemma RowWrittenCons<T>(w: ChunkWrite<T>, files: seq<ChunkWrite<T>>, data: seq<T>, j: nat)
    requires RowWritten(files, data, j)
    ensures RowWritten([w] + files, data, j)
  {
    var i :| 0 <= i < |files| && RowInFile(files[i], data, j);
    assert ([w] + files)[i + 1] == files[i];
  }

  /** No row is skipped: unless the chunk size has dropped to 0 by the time
      the loop stops, every row lands in some file, at the position its index
      gives. */
  lemma NoRowSkipped<T>(base: string, data: seq<T>, size: seq<T> -> nat, j: nat)
    requires j < |data|
    requires SaveFrom(base, data, size, 1, InitialChunkSize).chunkSize > 0
    ensures RowWritten(SaveFrom(base, data, size, 1, InitialChunkSize).files, data, j)
  {
    RowCovered(base, data, size, 1, InitialChunkSize, j);
  }

  /** Every file gets its own name, so no file is written twice. */
  lemma FileNamesDistinct<T>(base: string, data: seq<T>, size: seq<T> -> nat, k: nat, c: nat)
    requires k >= 1
    ensures var f := SaveFrom(base, data, size, k, c).files;
            forall i, j :: 0 <= i < j < |f| ==> f[i].name != f[j].name
  {
    SaveFromWindows(base, data, size, k, c);
    SaveFromNames(base, data, size, k, c);
    FilesDistinctNames(SaveFrom(base, data, size, k, c).files, data, base, k);
  }

  lemma FilesDistinctNames<T>(f: seq<ChunkWrite<T>>, data: seq<T>, base: string, k: nat)
    requires WindowsFrom(f, data, k) && NamedByNumber(f, base)
    ensures forall i, j :: 0 <= i < j < |f| ==> f[i].name != f[j].name
  {
    forall i, j | 0 <= i < j < |f| ensures f[i].name != f[j].name {
      assert WindowOk(f[i], data, k + i);
      assert WindowOk(f[j], data, k + j);
      if f[i].name == f[j].name {
        FileNameInjective(base, k + i, k + j);
      }
    }
  }

  /** With no rows the first slice is already empty: no file is written and
      the count reported is 0. */
  lemma NoDataNoFiles<T>(base: string, size: seq<T> -> nat)
    ensures SaveFrom(base, [], size, 1, InitialChunkSize) == Saved([], 1, InitialChunkSize)
  {
  }

  /** 25000 rows, no file over the limit: files of 10000, 10000 and 5000
      rows, in order, named `_1`, `_2` and `_3`. */
  lemma ThreeFilesExample<T>(base: string, data: seq<T>, size: seq<T> -> nat)
    requires |data| == 25000
    requires forall rows :: size(rows) <= MaxSize
    ensures SaveFrom(base, data, size, 1, InitialChunkSize).files
            == [ChunkWrite(1, 10000, FileName(base, 1), data[..10000]),
                ChunkWrite(2, 10000, FileName(base, 2), data[10000..20000]),
                ChunkWrite(3, 10000, FileName(base, 3), data[20000..])]
  {
    MulIsProduct(1, 10000);
    MulIsProduct(2, 10000);
    MulIsProduct(3, 10000);
    var s4 := SaveFrom(base, data, size, 4, 10000);
    assert s4 == Saved([], 4, 10000);
    var s3 := SaveFrom(base, data, size, 3, 10000);
    assert Rows(data, Lo(3, 10000), Mul(3, 10000)) == data[20000..];
    assert s3.files == [ChunkWrite(3, 10000, FileName(base, 3), data[20000..])];
    var s2 := SaveFrom(base, data, size, 2, 10000);
    assert s2.files == [ChunkWrite(2, 10000, FileName(base, 2), data[10000..20000])] + s3.files;
  }

  /** 20000 rows whose first 10000 make a file over the limit: the chunk size
      drops to 8000, so the second file starts at row 8000 and rows 8000 to
      9999 are written twice, once in each of the first two files. */
  lemma OverlapExample<T>(base: string, data: seq<T>, size: seq<T> -> nat)
    requires |data| == 20000
    requires size(data[..10000]) > MaxSize
    requires size(data[8000..16000]) <= MaxSize && size(data[16000..]) <= MaxSize
    ensures SaveFrom(base, data, size, 1, InitialChunkSize).files
            == [ChunkWrite(1, 10000, FileName(base, 1), data[..10000]),
                ChunkWrite(2, 8000, FileName(base, 2), data[8000..16000]),
                ChunkWrite(3, 8000, FileName(base, 3), data[16000..])]
    ensures forall j :: 8000 <= j < 10000 ==>
              RowInFile(SaveFrom(base, data, size, 1, InitialChunkSize).files[0], data, j)
              && RowInFile(SaveFrom(base, data, size, 1, InitialChunkSize).files[1], data, j)
  {
    MulIsProduct(1, 10000);
    MulIsProduct(1, 8000);
    MulIsProduct(2, 8000);
    MulIsProduct(3, 8000);
    var s4 := SaveFrom(base, data, size, 4, 8000);
    assert s4 == Saved([], 4, 8000);
    var s3 := SaveFrom(base, data, size, 3, 8000);
    assert Rows(data, Lo(3, 8000), Mul(3, 8000)) == data[16000..];
    assert s3.files == [ChunkWrite(3, 8000, FileName(base, 3), data[16000..])];
    var s2 := SaveFrom(base, data, size, 2, 8000);
    assert s2.files == [ChunkWrite(2, 8000, FileName(base, 2), data[8000..16000])] + s3.files;
    var s1 := SaveFrom(base, data, size, 1, InitialChunkSize);
    assert s1.files == [ChunkWrite(1, 10000, FileName(base, 1), data[..10000])] + s2.files;
  }

  /** With chunk size 1, a one-row file over the limit shrinks the chunk size
      to 0 and the loop stops right after it, whatever rows remain. */
  lemma ShrinkToZeroExample<T>(base: string, data: seq<T>, size: seq<T> -> nat, k: nat)
    requires 1 <= k <= |data|
    requires size([data[k - 1]]) > MaxSize
    ensures SaveFrom(base, data, size, k, 1)
            == Saved([ChunkWrite(k, 1, FileName(base, k), [data[k - 1]])], k + 1, 0)
  {
    MulIsProduct(k - 1, 1);
    MulIsProduct(k, 1);
    assert data[k - 1..k] == [data[k - 1]];
    ZeroChunkStops(base, data, size, k + 1);
  }
}
