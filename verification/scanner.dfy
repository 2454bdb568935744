/** `processFiles` of the batch processor: files are scanned in chunks of
    three in submission order (timestamp from EXIF or the file, payload from
    the QR ladder), the records are stably sorted by timestamp, and the sorted
    stream is grouped. EXIF reading and image decoding are oracles. */
module Scanner {
  import opened Common
  import opened Grouping
  import QrLadder

  /** Files scanned per chunk. */
  const BatchSize: nat := 3

  /** What `exifr.parse(file)` gave: it threw or rejected (both caught), it
      gave nothing, or it gave metadata whose `DateTimeOriginal`, if present,
      converts to the given epoch milliseconds. */
  datatype Exif = ExifFailed | ExifNone | ExifData(dateTimeOriginal: Option<int>)

  /** The loaded image of a file: natural size, whether a 2D canvas context
      is available, and the decoders' answers. */
  datatype Raster = Raster(width: nat, height: nat, native: QrLadder.NativeOutcome,
                           context2d: bool, canvas: QrLadder.CanvasScan)

  /** The per-file oracles: the EXIF reader and the image decoder. A file
      the browser cannot decode has no raster: `img.onload` never fires. */
  datatype Env = Env(exifOf: File -> Exif, rasterOf: File -> Option<Raster>)

  /** How a promise settles: with a value, never (it waits forever), or by
      rejecting. */
  datatype Outcome<T> = Fulfilled(value: T) | Hangs | Rejects

  /** The capture timestamp: EXIF `DateTimeOriginal` when present, the file's
      `lastModified` otherwise, including when EXIF parsing fails. */
  function ResolveTimestamp(file: File, exif: Exif): (t: int)
    ensures exif.ExifData? && exif.dateTimeOriginal.Some? ==> t == exif.dateTimeOriginal.value
    ensures exif == ExifFailed || exif == ExifNone ==> t == file.lastModified
    ensures exif == ExifData(None) ==> t == file.lastModified
  {
    match exif
    case ExifData(Some(original)) => original
    case _ => file.lastModified
  }

  /** One file's record: its resolved timestamp and the ladder's payload.
      An undecodable file leaves the scan waiting for `onload` forever; a
      degenerate canvas makes it reject. */
  function ProcessFile(file: File, env: Env): (r: Outcome<Image>)
    ensures r.Hangs? <==> env.rasterOf(file).None?
    ensures r.Rejects? <==>
              var ra := env.rasterOf(file);
              ra.Some? && QrLadder.Throws(ra.value.width as real, ra.value.height as real,
                                          ra.value.native, ra.value.context2d)
    ensures r.Fulfilled? ==> r.value.file == file
    ensures r.Fulfilled? ==> r.value.timestamp == ResolveTimestamp(file, env.exifOf(file))
  {
    match env.rasterOf(file)
    case None => Hangs
    case Some(raster) =>
      var w, h := raster.width as real, raster.height as real;
      if QrLadder.Throws(w, h, raster.native, raster.context2d) then Rejects
      else
        var scan := QrLadder.ScanImage(w, h, raster.native, raster.canvas);
        Fulfilled(Image(file, ResolveTimestamp(file, env.exifOf(file)), scan.payload))
  }

  /** A record's payload is the answer of the first rung of the allowed
      ladder that succeeds, and nothing when every rung failed. */
  lemma ProcessFilePayload(file: File, env: Env)
    requires ProcessFile(file, env).Fulfilled?
    ensures env.rasterOf(file).Some?
    ensures var r := env.rasterOf(file).value;
            var w, h := r.width as real, r.height as real;
            ProcessFile(file, env).value.qrData
              == QrLadder.FirstSuccess(QrLadder.Allowed(w, h, r.native), w, h, r.native, r.canvas).payload
  {
    var r := env.rasterOf(file).value;
    QrLadder.ScanImageIsFirstSuccess(r.width as real, r.height as real, r.native, r.canvas);
  }

  /** Every file of `files` scans to a record. */
  predicate AllScan(files: seq<File>, env: Env) {
    forall k :: 0 <= k < |files| ==> ProcessFile(files[k], env).Fulfilled?
  }

  /** `Promise.all` of two settled lists: a rejection wins, then a promise
      that never settles, and otherwise the values are appended. */
  function Both<T>(a: Outcome<seq<T>>, b: Outcome<seq<T>>): (r: Outcome<seq<T>>)
    ensures r.Fulfilled? <==> a.Fulfilled? && b.Fulfilled?
    ensures r.Rejects? <==> a.Rejects? || b.Rejects?
    ensures r.Fulfilled? ==> r.value == a.value + b.value
  {
    if a.Rejects? || b.Rejects? then Rejects
    else if a.Hangs? || b.Hangs? then Hangs
    else Fulfilled(a.value + b.value)
  }

  /** One promise's outcome as a list of at most one value. */
  function Single<T>(o: Outcome<T>): (r: Outcome<seq<T>>)
    ensures r.Fulfilled? <==> o.Fulfilled?
    ensures r.Rejects? <==> o.Rejects?
    ensures r.Fulfilled? ==> r.value == [o.value]
  {
    match o
    case Fulfilled(v) => Fulfilled([v])
    case Hangs => Hangs
    case Rejects => Rejects
  }

  /** `Promise.all` of settled promises: every value, in order, when all
      fulfil; rejected when any rejects; waiting forever when none rejects
      but one never settles. */
  function AllOf<T>(outs: seq<Outcome<T>>): (r: Outcome<seq<T>>)
    ensures r.Fulfilled? <==> forall k :: 0 <= k < |outs| ==> outs[k].Fulfilled?
    ensures r.Rejects? <==> exists k :: 0 <= k < |outs| && outs[k].Rejects?
    ensures r.Fulfilled? ==> |r.value| == |outs|
    ensures r.Fulfilled? ==> forall k :: 0 <= k < |outs| ==> r.value[k] == outs[k].value
  {
    if outs == [] then Fulfilled([])
    else
      assert forall k :: 1 <= k < |outs| ==> outs[k] == outs[1..][k - 1];
      Both(Single(outs[0]), AllOf(outs[1..]))
  }

  lemma BothAssociative<T>(a: Outcome<seq<T>>, b: Outcome<seq<T>>, c: Outcome<seq<T>>)
    ensures Both(Both(a, b), c) == Both(a, Both(b, c))
  {
    if a.Fulfilled? && b.Fulfilled? && c.Fulfilled? {
      assert (a.value + b.value) + c.value == a.value + (b.value + c.value);
    }
  }

  /** `Promise.all` over two lists laid end to end combines the two. */
  lemma {:induction false} AllOfConcat<T>(a: seq<Outcome<T>>, b: seq<Outcome<T>>)
    ensures AllOf(a + b) == Both(AllOf(a), AllOf(b))
    decreases |a|
  {
    if a == [] {
      assert a + b == b;
      var rb := AllOf(b);
      if rb.Fulfilled? {
        assert [] + rb.value == rb.value;
      }
    } else {
      assert (a + b)[0] == a[0];
      assert (a + b)[1..] == a[1..] + b;
      AllOfConcat(a[1..], b);
      BothAssociative(Single(a[0]), AllOf(a[1..]), AllOf(b));
    }
  }

  lemma MapConcat<A, B>(f: A -> B, a: seq<A>, b: seq<A>)
    ensures Map(f, a + b) == Map(f, a) + Map(f, b)
  {
  }

  /** `Promise.all(chunk.map(...))`: the records of one chunk, in chunk
      order, when every file scans; rejected when any file's scan rejects,
      and waiting forever when none rejects but one never loads. */
  function ProcessChunk(chunk: seq<File>, env: Env): (r: Outcome<seq<Image>>)
    ensures r.Fulfilled? <==> AllScan(chunk, env)
    ensures r.Rejects? <==> exists k :: 0 <= k < |chunk| && ProcessFile(chunk[k], env).Rejects?
    ensures r.Fulfilled? ==> |r.value| == |chunk|
    ensures r.Fulfilled? ==> forall k :: 0 <= k < |chunk| ==> r.value[k] == ProcessFile(chunk[k], env).value
  {
    AllOf(Map(file => ProcessFile(file, env), chunk))
  }

  lemma ProcessChunkConcat(a: seq<File>, b: seq<File>, env: Env)
    ensures ProcessChunk(a + b, env) == Both(ProcessChunk(a, env), ProcessChunk(b, env))
  {
    var f := file => ProcessFile(file, env);
    MapConcat(f, a, b);
    AllOfConcat(Map(f, a), Map(f, b));
  }

  /** The slices `files.slice(i, i + 3)` for i = 0, 3, 6, ... */
  function Chunks<T>(files: seq<T>): (chunks: seq<seq<T>>)
    ensures forall c :: 0 <= c < |chunks| ==> 0 < |chunks[c]| <= BatchSize
    ensures forall c :: 0 <= c < |chunks| - 1 ==> |chunks[c]| == BatchSize
    ensures Concat(chunks) == files
    ensures |chunks| == (|files| + BatchSize - 1) / BatchSize
    decreases |files|
  {
    if |files| <= BatchSize then
      if files == [] then [] else [files]
    else
      var rest := Chunks(files[BatchSize..]);
      assert files == files[..BatchSize] + files[BatchSize..];
      [files[..BatchSize]] + rest
  }

  function Concat<T>(chunks: seq<seq<T>>): seq<T> {
    if chunks == [] then [] else chunks[0] + Concat(chunks[1..])
  }

  /** `f` applied to each element, in order. */
  function Map<A, B>(f: A -> B, s: seq<A>): (r: seq<B>)
    ensures |r| == |s|
    ensures forall i :: 0 <= i < |s| ==> r[i] == f(s[i])
  {
    seq(|s|, i requires 0 <= i < |s| => f(s[i]))
  }

  lemma MapTail<A, B>(f: A -> B, s: seq<A>)
    requires s != []
    ensures Map(f, s)[1..] == Map(f, s[1..])
  {
  }

  /** Awaiting settled promises one after another: the values appended in
      order, or the outcome of the first one that does not fulfil, since
      nothing after it is awaited. */
  function AwaitInOrder<T>(outs: seq<Outcome<seq<T>>>): (r: Outcome<seq<T>>)
    ensures r.Fulfilled? <==> forall c :: 0 <= c < |outs| ==> outs[c].Fulfilled?
  {
    if outs == [] then Fulfilled([])
    else if !outs[0].Fulfilled? then outs[0]
    else
      var rest := AwaitInOrder(outs[1..]);
      assert forall c :: 1 <= c < |outs| ==> outs[c] == outs[1..][c - 1];
      if !rest.Fulfilled? then rest else Fulfilled(outs[0].value + rest.value)
  }

  /** An outcome that is not fulfilled is that of the first promise that
      did not fulfil. */
  lemma {:induction false} AwaitFirstFailure<T>(outs: seq<Outcome<seq<T>>>)
    ensures !AwaitInOrder(outs).Fulfilled? ==>
              exists c :: 0 <= c < |outs| && AwaitInOrder(outs) == outs[c]
                          && forall d :: 0 <= d < c ==> outs[d].Fulfilled?
    decreases |outs|
  {
    if outs != [] && outs[0].Fulfilled? && !AwaitInOrder(outs).Fulfilled? {
      var tail := outs[1..];
      AwaitFirstFailure(tail);
      assert AwaitInOrder(outs) == AwaitInOrder(tail);
      var c :| 0 <= c < |tail| && AwaitInOrder(tail) == tail[c]
               && forall d :: 0 <= d < c ==> tail[d].Fulfilled?;
      assert tail[c] == outs[c + 1];
      forall d | 0 <= d < c + 1 ensures outs[d].Fulfilled? {
        if d > 0 {
          assert outs[d] == tail[d - 1];
        }
      }
    }
  }

  /** The chunk loop as a sequence of awaits: each chunk's records appended
      after the previous ones, and the first chunk that does not fulfil
      decides the outcome, since later chunks are never started. */
  function ScanChunks(chunks: seq<seq<File>>, env: Env): (r: Outcome<seq<Image>>)
    ensures r.Fulfilled? <==> forall c :: 0 <= c < |chunks| ==> ProcessChunk(chunks[c], env).Fulfilled?
    ensures !r.Fulfilled? ==>
              exists c :: 0 <= c < |chunks| && r == ProcessChunk(chunks[c], env)
                          && forall d :: 0 <= d < c ==> ProcessChunk(chunks[d], env).Fulfilled?
  {
    var outs := Map(chunk => ProcessChunk(chunk, env), chunks);
    AwaitFirstFailure(outs);
    AwaitInOrder(outs)
  }

  /** When every chunk fulfils, scanning chunk by chunk gives the records of
      all the chunks laid end to end; otherwise neither gives any. */
  lemma {:induction false} ScanChunksOnePerFile(chunks: seq<seq<File>>, env: Env)
    ensures ScanChunks(chunks, env).Fulfilled? <==> ProcessChunk(Concat(chunks), env).Fulfilled?
    ensures ScanChunks(chunks, env).Fulfilled? ==>
              ScanChunks(chunks, env) == ProcessChunk(Concat(chunks), env)
    decreases |chunks|
  {
    if chunks != [] {
      var f := chunk => ProcessChunk(chunk, env);
      MapTail(f, chunks);
      assert Map(f, chunks)[0] == ProcessChunk(chunks[0], env);
      ScanChunksOnePerFile(chunks[1..], env);
      ProcessChunkConcat(chunks[0], Concat(chunks[1..]), env);
    }
  }

  /** The chunked scan of a whole selection fulfils exactly when every file
      scans, and then holds one record per file, the k-th record being the
      k-th file's. */
  lemma ChunkedScanIsPerFile(files: seq<File>, env: Env)
    ensures ScanChunks(Chunks(files), env).Fulfilled? <==> AllScan(files, env)
    ensures ScanChunks(Chunks(files), env).Fulfilled? ==>
              |ScanChunks(Chunks(files), env).value| == |files|
              && forall k :: 0 <= k < |files| ==>
                   ScanChunks(Chunks(files), env).value[k] == ProcessFile(files[k], env).value
  {
    ScanChunksOnePerFile(Chunks(files), env);
  }

  /** Records already pushed, followed by whatever the remaining chunks
      give: nothing is shown unless they fulfil too. */
  function Prepend<T>(images: seq<T>, rest: Outcome<seq<T>>): (r: Outcome<seq<T>>)
    ensures r.Fulfilled? <==> rest.Fulfilled?
    ensures r.Fulfilled? ==>
              |r.value| == |images| + |rest.value|
              && r.value[..|images|] == images && r.value[|images|..] == rest.value
    ensures !r.Fulfilled? ==> r == rest
  {
    if rest.Fulfilled? then Fulfilled(images + rest.value) else rest
  }

  lemma PrependTwice<T>(a: seq<T>, b: seq<T>, rest: Outcome<seq<T>>)
    ensures Prepend(a, Prepend(b, rest)) == Prepend(a + b, rest)
  {
    if rest.Fulfilled? {
      assert a + (b + rest.value) == (a + b) + rest.value;
    }
  }

  lemma PrependEmpty<T>(rest: Outcome<seq<T>>)
    ensures Prepend([], rest) == rest
  {
    if rest.Fulfilled? {
      assert [] + rest.value == rest.value;
    }
  }

  lemma PrependNothing<T>(a: seq<T>)
    ensures Prepend(a, Fulfilled([])) == Fulfilled(a)
  {
    assert a + [] == a;
  }

  /** The first chunk decides: a chunk that does not fulfil is the outcome
      of the whole chunked scan, whatever the later chunks would give, and
      a chunk that fulfils puts its records before those of the rest. */
  lemma ScanChunksCons(chunks: seq<seq<File>>, env: Env)
    requires chunks != []
    ensures !ProcessChunk(chunks[0], env).Fulfilled? ==>
              ScanChunks(chunks, env) == ProcessChunk(chunks[0], env)
    ensures ProcessChunk(chunks[0], env).Fulfilled? ==>
              ScanChunks(chunks, env) == Prepend(ProcessChunk(chunks[0], env).value, ScanChunks(chunks[1..], env))
  {
    var f := chunk => ProcessChunk(chunk, env);
    MapTail(f, chunks);
  }

  /** One turn of the loop: the chunk `files.slice(i, i + 3)`, followed by
      the chunks of what is left. */
  lemma ChunksFrom(files: seq<File>, i: nat, end: nat)
    requires i < |files| && end == (if i + BatchSize <= |files| then i + BatchSize else |files|)
    ensures Chunks(files[i..]) != []
    ensures Chunks(files[i..])[0] == files[i..end]
    ensures Chunks(files[i..])[1..] == Chunks(files[end..])
  {
    var rest := files[i..];
    assert rest[..end - i] == files[i..end];
    assert rest[end - i..] == files[end..];
  }

  /** One turn of the loop in terms of the chunked scan of the whole
      selection: a failing chunk is the outcome, and a fulfilled one moves
      its records from the remaining chunks to those pushed. */
  lemma ScanStep(files: seq<File>, i: nat, end: nat, images: seq<Image>, env: Env)
    requires i < |files| && end == (if i + BatchSize <= |files| then i + BatchSize else |files|)
    requires ScanChunks(Chunks(files), env) == Prepend(images, ScanChunks(Chunks(files[i..]), env))
    ensures !ProcessChunk(files[i..end], env).Fulfilled? ==>
              ScanChunks(Chunks(files), env) == ProcessChunk(files[i..end], env)
    ensures ProcessChunk(files[i..end], env).Fulfilled? ==>
              ScanChunks(Chunks(files), env)
                == Prepend(images + ProcessChunk(files[i..end], env).value, ScanChunks(Chunks(files[end..]), env))
  {
    ChunksFrom(files, i, end);
    ScanChunksCons(Chunks(files[i..]), env);
    var chunk := ProcessChunk(files[i..end], env);
    if chunk.Fulfilled? {
      PrependTwice(images, chunk.value, ScanChunks(Chunks(files[end..]), env));
    }
  }

  /** Nothing left: no chunks, and a scan of no chunks fulfils with no
      records. */
  lemma ScanNothingLeft(files: seq<File>, env: Env)
    ensures ScanChunks(Chunks(files[|files|..]), env) == Fulfilled([])
  {
    var left := files[|files|..];
    assert left == [];
    ScanNoChunks(env);
  }

  lemma ScanNoChunks(env: Env)
    ensures ScanChunks(Chunks([]), env) == Fulfilled([])
  {
    var none: seq<File> := [];
    assert Chunks(none) == [];
    assert Map(chunk => ProcessChunk(chunk, env), []) == [];
  }

  /** A file of the first chunk that never loads stalls the whole scan,
      even when a file of a later chunk would reject: that chunk is never
      started. */
  lemma FirstChunkHangWins(files: seq<File>, env: Env)
    requires files != []
    requires var first := files[..if BatchSize <= |files| then BatchSize else |files|];
             (exists k :: 0 <= k < |first| && ProcessFile(first[k], env).Hangs?)
             && forall k :: 0 <= k < |first| ==> !ProcessFile(first[k], env).Rejects?
    ensures ScanChunks(Chunks(files), env).Hangs?
  {
    var end := if BatchSize <= |files| then BatchSize else |files|;
    assert files[0..] == files;
    var empty: seq<Image> := [];
    PrependEmpty(ScanChunks(Chunks(files), env));
    ScanStep(files, 0, end, empty, env);
  }

  /** The `for` loop of `processFiles`, stepping `i` by the batch size and
      pushing each chunk's records; the first chunk that does not fulfil
      ends the scan. */
  method ScanFiles(files: seq<File>, env: Env) returns (out: Outcome<seq<Image>>)
    ensures out == ScanChunks(Chunks(files), env)
    ensures out.Fulfilled? <==> AllScan(files, env)
    ensures out.Fulfilled? ==> |out.value| == |files|
    ensures out.Fulfilled? ==> forall k :: 0 <= k < |files| ==> out.value[k] == ProcessFile(files[k], env).value
    ensures out.Rejects? ==> exists k :: 0 <= k < |files| && ProcessFile(files[k], env).Rejects?
    ensures out.Hangs? ==> exists k :: 0 <= k < |files| && ProcessFile(files[k], env).Hangs?
  {
    var images := [];
    var i := 0;
    assert files[0..] == files;
    while i < |files|
      invariant i <= |files| ==> Fulfilled(images) == ProcessChunk(files[..i], env)
      invariant i > |files| ==> Fulfilled(images) == ProcessChunk(files, env)
      invariant i <= |files| ==> ScanChunks(Chunks(files), env) == Prepend(images, ScanChunks(Chunks(files[i..]), env))
      invariant i > |files| ==> ScanChunks(Chunks(files), env) == Fulfilled(images)
      decreases |files| - i
    {
      var end := if i + BatchSize <= |files| then i + BatchSize else |files|;
      var chunk := ProcessChunk(files[i..end], env);
      ScanStep(files, i, end, images, env);
      if !chunk.Fulfilled? {
        ChunkFailure(files, i, end, env);
        return chunk;
      }
      AppendChunk(files, i, end, images, env);
      images := images + chunk.value;
      if end == |files| {
        ScanNothingLeft(files, env);
        PrependNothing(images);
      }
      i := i + BatchSize;
    }
    assert i == |files| ==> files[..i] == files;
    if i == |files| {
      ScanNothingLeft(files, env);
      PrependNothing(images);
    }
    out := Fulfilled(images);
  }

  /** The records of `files[i..end]` continue those of `files[..i]`; once
      the last chunk is in, they are the records of the whole selection. */
  lemma AppendChunk(files: seq<File>, i: nat, end: nat, images: seq<Image>, env: Env)
    requires i <= end <= |files|
    requires Fulfilled(images) == ProcessChunk(files[..i], env)
    requires ProcessChunk(files[i..end], env).Fulfilled?
    ensures Fulfilled(images + ProcessChunk(files[i..end], env).value) == ProcessChunk(files[..end], env)
    ensures end == |files| ==> ProcessChunk(files[..end], env) == ProcessChunk(files, env)
  {
    SliceJoin(files, i, end);
    ProcessChunkConcat(files[..i], files[i..end], env);
  }

  lemma SliceJoin<T>(s: seq<T>, i: nat, end: nat)
    requires i <= end <= |s|
    ensures s[..i] + s[i..end] == s[..end]
    ensures end == |s| ==> s[..end] == s
  {
  }

  /** A chunk that does not fulfil names a file of the selection that fails
      in the same way, so the whole selection does not scan. */
  lemma ChunkFailure(files: seq<File>, i: nat, end: nat, env: Env)
    requires i <= end <= |files|
    requires !ProcessChunk(files[i..end], env).Fulfilled?
    ensures !AllScan(files, env)
    ensures ProcessChunk(files[i..end], env).Rejects? ==>
              exists k :: 0 <= k < |files| && ProcessFile(files[k], env).Rejects?
    ensures ProcessChunk(files[i..end], env).Hangs? ==>
              exists k :: 0 <= k < |files| && ProcessFile(files[k], env).Hangs?
  {
    var chunk := files[i..end];
    assert !AllScan(chunk, env);
    var k :| 0 <= k < |chunk| && !ProcessFile(chunk[k], env).Fulfilled?;
    assert chunk[k] == files[i + k];
    if ProcessChunk(chunk, env).Rejects? {
      var j :| 0 <= j < |chunk| && ProcessFile(chunk[j], env).Rejects?;
      assert chunk[j] == files[i + j];
    } else if ProcessChunk(chunk, env).Hangs? {
      var j :| 0 <= j < |chunk| && ProcessFile(chunk[j], env).Hangs?;
      assert chunk[j] == files[i + j];
    }
  }

  /** Timestamps never decrease along `s`. */
  predicate SortedByTime(s: seq<Image>) {
    forall i, j :: 0 <= i < j < |s| ==> s[i].timestamp <= s[j].timestamp
  }

  /** Inserts `x` before the first element whose timestamp is not smaller. */
  function Insert(x: Image, s: seq<Image>): (r: seq<Image>)
    requires SortedByTime(s)
    ensures SortedByTime(r)
    ensures multiset(r) == multiset(s) + multiset{x}
    ensures r[0] == x || (s != [] && r[0] == s[0])
    decreases |s|
  {
    if s == [] || x.timestamp <= s[0].timestamp then
      ConsSorted(x, s);
      [x] + s
    else
      var rest := Insert(x, s[1..]);
      assert s == [s[0]] + s[1..];
      ConsSorted(s[0], rest);
      [s[0]] + rest
  }

  /** Putting in front a record no later than the first keeps the order. */
  lemma ConsSorted(a: Image, r: seq<Image>)
    requires SortedByTime(r)
    requires r != [] ==> a.timestamp <= r[0].timestamp
    ensures SortedByTime([a] + r)
  {
    forall i, j | 0 <= i < j < |[a] + r| ensures ([a] + r)[i].timestamp <= ([a] + r)[j].timestamp {
      if i == 0 {
        assert ([a] + r)[j] == r[j - 1];
      } else {
        assert ([a] + r)[i] == r[i - 1] && ([a] + r)[j] == r[j - 1];
      }
    }
  }

  /** `images.sort((a, b) => a.timestamp - b.timestamp)`: a stable sort by
      timestamp (insertion of each element before the ones it does not
      follow). */
  function SortByTime(s: seq<Image>): (r: seq<Image>)
    ensures SortedByTime(r)
    ensures multiset(r) == multiset(s)
    ensures |r| == |s|
  {
    if s == [] then []
    else
      assert s == [s[0]] + s[1..];
      var r := Insert(s[0], SortByTime(s[1..]));
      assert |r| == |multiset(r)|;
      r
  }

  /** The records of `s` carrying timestamp `t`, in order. */
  function WithTime(t: int, s: seq<Image>): seq<Image> {
    if s == [] then [] else (if s[0].timestamp == t then [s[0]] else []) + WithTime(t, s[1..])
  }

  lemma WithTimeCons(t: int, y: Image, s: seq<Image>)
    ensures WithTime(t, [y] + s) == (if y.timestamp == t then [y] else []) + WithTime(t, s)
  {
    assert ([y] + s)[0] == y;
    assert ([y] + s)[1..] == s;
  }

  lemma {:induction false} WithTimeInsert(t: int, x: Image, s: seq<Image>)
    requires SortedByTime(s)
    ensures WithTime(t, Insert(x, s)) == (if x.timestamp == t then [x] else []) + WithTime(t, s)
    decreases |s|
  {
    if s == [] || x.timestamp <= s[0].timestamp {
      WithTimeCons(t, x, s);
    } else {
      var rest := Insert(x, s[1..]);
      assert Insert(x, s) == [s[0]] + rest;
      WithTimeCons(t, s[0], rest);
      WithTimeInsert(t, x, s[1..]);
      assert s == [s[0]] + s[1..];
      WithTimeCons(t, s[0], s[1..]);
      SwapDistinctTimes(t, s[0], x, WithTime(t, s[1..]));
    }
  }

  /** Records with different timestamps cannot both be kept by `WithTime`,
      so their contributions commute. */
  lemma SwapDistinctTimes(t: int, a: Image, x: Image, tail: seq<Image>)
    requires a.timestamp < x.timestamp
    ensures var ka := if a.timestamp == t then [a] else [];
            var kx := if x.timestamp == t then [x] else [];
            ka + (kx + tail) == kx + (ka + tail)
  {
    if a.timestamp == t {
      assert [] + ([a] + tail) == [a] + ([] + tail);
    } else {
      assert [] + tail == tail;
    }
  }

  /** The sort is stable: records with equal timestamps keep their
      submission order. */
  lemma {:induction false} SortByTimeStable(t: int, s: seq<Image>)
    ensures WithTime(t, SortByTime(s)) == WithTime(t, s)
    decreases |s|
  {
    if s != [] {
      SortByTimeStable(t, s[1..]);
      WithTimeInsert(t, s[0], SortByTime(s[1..]));
    }
  }

  /** The records of a selection that scans, in submission order. */
  function Scanned(files: seq<File>, env: Env): (images: seq<Image>)
    requires AllScan(files, env)
    ensures |images| == |files|
    ensures forall k :: 0 <= k < |files| ==> images[k] == ProcessFile(files[k], env).value
  {
    seq(|files|, k requires 0 <= k < |files| => ProcessFile(files[k], env).value)
  }

  /** What `processFiles` shows once it reaches the end. */
  datatype Batch = Batch(sorted: seq<Image>, groups: seq<Group>)

  /** The whole of `processFiles` after the file selection: scan in chunks,
      sort, group. A file that never loads or whose scan rejects stops the
      run before the sort, so no groups are produced. */
  method ProcessFiles(files: seq<File>, env: Env, parse: Parser) returns (out: Outcome<Batch>)
    ensures out.Fulfilled? <==> AllScan(files, env)
    ensures out.Rejects? ==> exists k :: 0 <= k < |files| && ProcessFile(files[k], env).Rejects?
    ensures out.Hangs? ==> exists k :: 0 <= k < |files| && ProcessFile(files[k], env).Hangs?
    ensures out.Hangs? <==> ScanChunks(Chunks(files), env).Hangs?
    ensures out.Rejects? <==> ScanChunks(Chunks(files), env).Rejects?
    ensures out.Fulfilled? ==>
              && |out.value.sorted| == |files|
              && SortedByTime(out.value.sorted)
              && multiset(out.value.sorted) == multiset(Scanned(files, env))
              && (forall t :: WithTime(t, out.value.sorted) == WithTime(t, Scanned(files, env)))
              && WellFormed(out.value.groups, parse)
              && Flatten(out.value.groups) == out.value.sorted
  {
    var scan := ScanFiles(files, env);
    if !scan.Fulfilled? {
      return if scan.Hangs? then Hangs else Rejects;
    }
    var images := scan.value;
    assert images == Scanned(files, env);
    var sorted := SortByTime(images);
    forall t ensures WithTime(t, sorted) == WithTime(t, images) {
      SortByTimeStable(t, images);
    }
    var groups := GroupImages(sorted, parse);
    out := Fulfilled(Batch(sorted, groups));
  }

  lemma SortThree(i1: Image, i2: Image, i3: Image)
    requires i1.timestamp < i2.timestamp < i3.timestamp
    ensures SortByTime([i3, i1, i2]) == [i1, i2, i3]
  {
    SortTwo(i1, i2);
    InsertLatest(i3, [i1, i2]);
    assert [i3, i1, i2][1..] == [i1, i2];
    assert [i1, i2] + [i3] == [i1, i2, i3];
  }

  lemma SortTwo(i1: Image, i2: Image)
    requires i1.timestamp < i2.timestamp
    ensures SortByTime([i1, i2]) == [i1, i2]
  {
    assert SortByTime([i2]) == [i2] by {
      assert [i2][1..] == [];
    }
    assert [i1, i2][1..] == [i2];
  }

  /** A record later than every sorted one goes to the end. */
  lemma {:induction false} InsertLatest(x: Image, s: seq<Image>)
    requires SortedByTime(s)
    requires forall k :: 0 <= k < |s| ==> s[k].timestamp < x.timestamp
    ensures Insert(x, s) == s + [x]
    decreases |s|
  {
    if s != [] {
      var tail := s[1..];
      assert SortedByTime(tail) by {
        forall i, j | 0 <= i < j < |tail| ensures tail[i].timestamp <= tail[j].timestamp {
          assert tail[i] == s[i + 1] && tail[j] == s[j + 1];
        }
      }
      forall k | 0 <= k < |tail| ensures tail[k].timestamp < x.timestamp {
        assert tail[k] == s[k + 1];
      }
      InsertLatest(x, tail);
      assert Insert(x, s) == [s[0]] + Insert(x, tail);
      assert s == [s[0]] + tail;
    }
  }

  /** Three files with timestamps T3, T1, T2 where the T1 file is a
      separator encoding `{id: "A", name: "Alice"}`: one group "Alice"
      anchored by T1 whose photos are T2 then T3. */
  lemma AliceScenario(i1: Image, i2: Image, i3: Image, parse: Parser)
    requires i1.timestamp < i2.timestamp < i3.timestamp
    requires i1.qrData.Some? && i1.qrData.value != ""
    requires parse(i1.qrData.value) == Object(JStr("A"), JUndefined, JStr("Alice"))
    requires i2.qrData.None? && i3.qrData.None?
    ensures SortByTime([i3, i1, i2]) == [i1, i2, i3]
    ensures GroupImages(SortByTime([i3, i1, i2]), parse) == [Group(JStr("Alice"), Some(i1), [i2, i3])]
  {
    SortThree(i1, i2, i3);
    AliceGroup(i1, i2, i3, parse);
  }

  lemma AliceGroup(i1: Image, i2: Image, i3: Image, parse: Parser)
    requires i1.qrData.Some? && i1.qrData.value != ""
    requires parse(i1.qrData.value) == Object(JStr("A"), JUndefined, JStr("Alice"))
    requires i2.qrData.None? && i3.qrData.None?
    ensures GroupImages([i1, i2, i3], parse) == [Group(JStr("Alice"), Some(i1), [i2, i3])]
  {
    var g := Group(JStr("Alice"), Some(i1), [i2, i3]);
    assert SubjectOf(PayloadOf(i1), parse) == JStr("Alice");
    assert Members(g) == [i1, i2, i3];
    assert Flatten([g]) == Members(g) + Flatten([]);
    assert GoodGroup(g, parse);
    assert WellFormed([g], parse);
    GroupImagesCharacterised([i1, i2, i3], [g], parse);
  }
}
