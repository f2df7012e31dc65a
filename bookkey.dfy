/**
 * The partial MD5 of the book-key script: up to twelve byte windows of the
 * file, each at most 1024 bytes long, at offsets `1024 << 2i` for
 * `i = -1 .. 10`, are fed to the hasher in order.
 *
 * The shift follows JavaScript's 32-bit semantics (section 13.9.1 of
 * ECMAScript 2024: the left operand is converted with ToInt32, the shift count
 * with ToUint32 and masked to five bits, and the result wraps to a signed
 * 32-bit integer). The hasher is an accumulator of the byte slices it is given;
 * the digest itself is not modelled.
 */
module BookKey {

  type byte = b: int | 0 <= b < 256

  const Step := 1024
  const Size := 1024

  function Pow2(n: nat): (p: nat)
    ensures p >= 1
  {
    if n == 0 then 1 else 2 * Pow2(n - 1)
  }

  /** ToUint32: the value modulo 2^32. */
  function ToUint32(x: int): (r: int)
    ensures 0 <= r < 0x1_0000_0000
  {
    x % 0x1_0000_0000
  }

  /** ToInt32: the value modulo 2^32, read as a two's-complement signed integer. */
  function ToInt32(x: int): (r: int)
    ensures -0x8000_0000 <= r < 0x8000_0000
    ensures -0x8000_0000 <= x < 0x8000_0000 ==> r == x
  {
    var u := ToUint32(x);
    if u < 0x8000_0000 then u else u - 0x1_0000_0000
  }

  /** `x` doubled `n` times: a left shift by `n` before wrapping. */
  function Doubled(x: int, n: nat): (r: int)
    decreases n
  {
    if n == 0 then x else Doubled(2 * x, n - 1)
  }

  /** `a << b`. */
  function Shl(a: int, b: int): (r: int)
    ensures -0x8000_0000 <= r < 0x8000_0000
  {
    ToInt32(Doubled(ToInt32(a), ToUint32(b) % 32))
  }

  lemma {:induction false} DoubledIsProduct(x: int, n: nat)
    ensures Doubled(x, n) == x * Pow2(n)
    decreases n
  {
    if n > 0 {
      DoubledIsProduct(2 * x, n - 1);
      assert 2 * x * Pow2(n - 1) == x * (2 * Pow2(n - 1));
    }
  }

  /** The first shift, `1024 << -2`, is `1024 << 30`, which wraps to 0. */
  lemma FirstShiftIsZero()
    ensures Shl(Step, 2 * -1) == 0
  {
    assert ToUint32(-2) % 32 == 30;
    DoubledIsProduct(1024, 30);
    Pow2Values();
  }

  lemma Pow2Values()
    ensures Pow2(10) == 1024 && Pow2(30) == 0x4000_0000
  {
    assert Pow2(10) == 1024;
    Pow2Add(10, 10);
    Pow2Add(20, 10);
  }

  lemma {:induction false} Pow2Add(a: nat, b: nat)
    ensures Pow2(a) * Pow2(b) == Pow2(a + b)
  {
    if a > 0 {
      Pow2Add(a - 1, b);
    }
  }

  lemma {:induction false} Pow2Monotone(a: nat, b: nat)
    requires a <= b
    ensures Pow2(a) <= Pow2(b)
    decreases b
  {
    if a < b {
      Pow2Monotone(a, b - 1);
    }
  }

  lemma Pow2Increasing(a: nat, b: nat)
    requires a < b
    ensures Pow2(a) < Pow2(b)
  {
    Pow2Monotone(a + 1, b);
  }

  /** For `i = 0 .. 10` the shift is exact: `1024 << 2i == 1024 * 4^i <= 2^30`. */
  lemma ShiftIsExact(i: int)
    requires 0 <= i <= 10
    ensures Shl(Step, 2 * i) == Pow2(10 + 2 * i) <= 0x4000_0000
  {
    var e := 2 * i;
    assert ToUint32(e) % 32 == e;
    assert ToInt32(Step) == 1024;
    DoubledIsProduct(1024, e);
    Pow2Values();
    Pow2Add(10, e);
    Pow2Monotone(10 + e, 30);
  }

  /** `step << (2 * i)`: where iteration `i` starts reading, before clamping. */
  function Offset(i: int): (o: int)
    ensures -0x8000_0000 <= o < 0x8000_0000
  {
    Shl(Step, 2 * i)
  }

  /** The offsets of the loop: 0 for `i = -1`, `1024 * 4^i` for `i = 0 .. 10`. */
  lemma OffsetValue(i: int)
    requires -1 <= i <= 10
    ensures Offset(i) == if i == -1 then 0 else Pow2(10 + 2 * i)
  {
    if i == -1 {
      FirstShiftIsZero();
    } else {
      ShiftIsExact(i);
    }
  }

  /** A byte window `[start, end)` of the file. */
  datatype Window = Window(start: int, end: int)

  /** `start = Math.min(fileSize, step << (2 * i))`, `end = Math.min(start + size, fileSize)`. */
  function WindowAt(fileSize: nat, i: int): (w: Window)
  {
    var start := if fileSize < Offset(i) then fileSize else Offset(i);
    var end := if start + Size < fileSize then start + Size else fileSize;
    Window(start, end)
  }

  /** The windows read from iteration `i` on (the loop runs up to `i = 10`),
      stopping at the first start at or past the end of the file. */
  function Schedule(fileSize: nat, i: int): (ws: seq<Window>)
    decreases if i > 10 then 0 else 11 - i
  {
    if i > 10 then []
    else
      var w := WindowAt(fileSize, i);
      if w.start >= fileSize then [] else [w] + Schedule(fileSize, i + 1)
  }

  /** The windows of the loop, from `i = -1`. */
  function Windows(fileSize: nat): (ws: seq<Window>)
    ensures |ws| <= 12
  {
    ScheduleShape(fileSize, -1);
    Schedule(fileSize, -1)
  }

  /** A window of the loop whose start is inside the file is read from its
      unclamped offset, lies inside the file and is at most 1024 bytes long. */
  lemma WindowAtShape(fileSize: nat, i: int)
    requires -1 <= i <= 10 && WindowAt(fileSize, i).start < fileSize
    ensures var w := WindowAt(fileSize, i);
      w.start == Offset(i) && 0 <= w.start < w.end <= fileSize && w.end - w.start <= Size
  {
    OffsetValue(i);
  }

  /** One step of the loop: it stops at a start past the end of the file, and
      otherwise reads a window inside the file and goes on. */
  lemma ScheduleHead(fileSize: nat, i: int)
    requires -1 <= i <= 10
    ensures var w := WindowAt(fileSize, i);
      && (w.start >= fileSize ==> Schedule(fileSize, i) == [])
      && (w.start < fileSize ==>
            && Schedule(fileSize, i) == [w] + Schedule(fileSize, i + 1)
            && 0 <= w.start < w.end <= fileSize)
  {
    if WindowAt(fileSize, i).start < fileSize {
      WindowAtShape(fileSize, i);
    }
  }

  /** A loop iteration that reads a window moves it from the windows still to
      read to the windows done. */
  lemma ScheduleExtend(fileSize: nat, i: int, done: seq<Window>)
    requires -1 <= i <= 10 && WindowAt(fileSize, i).start < fileSize
    requires Windows(fileSize) == done + Schedule(fileSize, i)
    ensures Windows(fileSize) == (done + [WindowAt(fileSize, i)]) + Schedule(fileSize, i + 1)
  {
    assert Schedule(fileSize, i) == [WindowAt(fileSize, i)] + Schedule(fileSize, i + 1);
  }

  /** Window `k` of the schedule from iteration `i` is the one of iteration
      `i + k`, unclamped; each lies inside the file and is at most 1024 bytes. */
  lemma {:induction false} ScheduleShape(fileSize: nat, i: int)
    requires -1 <= i <= 11
    decreases 11 - i
    ensures var ws := Schedule(fileSize, i);
      && |ws| <= 11 - i
      && forall k :: 0 <= k < |ws| ==>
           && ws[k].start == Offset(i + k)
           && 0 <= ws[k].start < ws[k].end <= fileSize
           && ws[k].end - ws[k].start <= Size
  {
    var ws := Schedule(fileSize, i);
    if i <= 10 && WindowAt(fileSize, i).start < fileSize {
      var rest := Schedule(fileSize, i + 1);
      ScheduleShape(fileSize, i + 1);
      assert ws == [WindowAt(fileSize, i)] + rest;
      WindowAtShape(fileSize, i);
      forall k | 1 <= k < |ws|
        ensures ws[k].start == Offset(i + k)
      {
        assert ws[k] == rest[k - 1];
        assert i + k == (i + 1) + (k - 1);
      }
    }
  }

  /** When fewer windows are read than iterations remain, the loop stopped at
      an iteration whose offset reached the end of the file. */
  lemma {:induction false} ScheduleStops(fileSize: nat, i: int)
    requires -1 <= i <= 11
    decreases 11 - i
    ensures |Schedule(fileSize, i)| < 11 - i ==> Offset(i + |Schedule(fileSize, i)|) >= fileSize
  {
    if i <= 10 && WindowAt(fileSize, i).start < fileSize {
      ScheduleStops(fileSize, i + 1);
      assert i + |Schedule(fileSize, i)| == (i + 1) + |Schedule(fileSize, i + 1)|;
    }
  }

  /** Window `k` of the loop starts at 0 for `k = 0` and at `1024 * 4^(k-1)` after. */
  lemma WindowStarts(fileSize: nat, k: nat)
    requires k < |Windows(fileSize)|
    ensures Windows(fileSize)[k].start == WindowStart(k)
  {
    ScheduleShape(fileSize, -1);
    OffsetIsWindowStart(k);
  }

  lemma OffsetIsWindowStart(k: nat)
    requires k <= 11
    ensures Offset(k - 1) == WindowStart(k)
  {
    OffsetValue(k - 1);
    if k > 0 {
      assert 10 + 2 * (k - 1) == 8 + 2 * k;
    }
  }

  /** Where window `k` starts: 0 for `k = 0`, and `1024 * 4^(k-1) = 2^(8+2k)` after. */
  function WindowStart(k: nat): (start: nat)
  {
    if k == 0 then 0 else Pow2(8 + 2 * k)
  }

  /** The start formula increases with `k`. */
  lemma StartsIncrease(k: nat, j: nat)
    requires k < j
    ensures WindowStart(k) < WindowStart(j)
  {
    if k > 0 {
      Pow2Increasing(8 + 2 * k, 8 + 2 * j);
    }
  }

  /** The read schedule: at most twelve windows, each inside the file and at most
      1024 bytes long, starting at 0, then at `1024 * 4^(k-1)` for window `k`, so
      that starts strictly increase; fewer than twelve only when the next offset
      is at or past the end of the file. */
  lemma WindowsSpec(fileSize: nat)
    ensures var ws := Windows(fileSize);
      && |ws| <= 12
      && (forall k :: 0 <= k < |ws| ==> 0 <= ws[k].start < ws[k].end <= fileSize && ws[k].end - ws[k].start <= Size)
      && (forall k :: 0 <= k < |ws| ==> ws[k].start == WindowStart(k))
      && (forall k, j :: 0 <= k < j < |ws| ==> ws[k].start < ws[j].start)
      && (|ws| < 12 ==> Offset(|ws| - 1) >= fileSize)
  {
    var ws := Windows(fileSize);
    ScheduleShape(fileSize, -1);
    ScheduleStops(fileSize, -1);
    forall k | 0 <= k < |ws| ensures ws[k].start == WindowStart(k) {
      WindowStarts(fileSize, k);
    }
    forall k, j | 0 <= k < j < |ws| ensures ws[k].start < ws[j].start {
      WindowStarts(fileSize, k);
      WindowStarts(fileSize, j);
      StartsIncrease(k, j);
    }
  }

  /** An empty file is not read at all. */
  lemma EmptyFileReadsNothing()
    ensures Windows(0) == []
  {
    OffsetValue(-1);
  }

  /** A non-empty file is read from its first byte, up to a whole kilobyte. */
  lemma FirstWindowIsFirstKilobyte(fileSize: nat)
    requires fileSize >= 1
    ensures Windows(fileSize) != []
    ensures Windows(fileSize)[0] == Window(0, if fileSize < Size then fileSize else Size)
  {
    OffsetValue(-1);
    assert WindowAt(fileSize, -1).start == 0;
  }

  /** The hash object of `createHash('md5')`: the buffers passed to `update`, in order. */
  class Hasher {
    var updates: seq<seq<byte>>

    constructor()
      ensures updates == []
    {
      updates := [];
    }

    /** `hasher.update(buffer)`. */
    method Update(buffer: array<byte>)
      modifies this
      ensures updates == old(updates) + [buffer[..]]
    {
      updates := updates + [buffer[..]];
    }
  }

  /** `fs.readSync(fd, buffer, 0, buffer.length, position)` on a file holding
      `data`, for a read that lies inside the file. */
  method ReadSync(data: seq<byte>, buffer: array<byte>, position: nat)
    requires position + buffer.Length <= |data|
    modifies buffer
    ensures buffer[..] == data[position..position + buffer.Length]
  {
    for k := 0 to buffer.Length
      invariant buffer[..k] == data[position..position + k]
    {
      buffer[k] := data[position + k];
      assert buffer[..k + 1] == buffer[..k] + [buffer[k]];
    }
  }

  /** `partialMD5(filePath)` up to the digest: the hasher receives one buffer per
      window of the schedule, in loop order, holding exactly that window's bytes. */
  method PartialMD5(data: seq<byte>) returns (fed: seq<seq<byte>>)
    ensures var ws := Windows(|data|);
      && |fed| == |ws|
      && forall k :: 0 <= k < |fed| ==>
           0 <= ws[k].start <= ws[k].end <= |data| && fed[k] == data[ws[k].start..ws[k].end]
  {
    var fileSize := |data|;
    var hasher := new Hasher();
    ghost var done: seq<Window> := [];
    var i := -1;
    while i <= 10
      invariant -1 <= i <= 11
      invariant Windows(fileSize) == done + Schedule(fileSize, i)
      invariant |hasher.updates| == |done|
      invariant forall k :: 0 <= k < |done| ==>
                  0 <= done[k].start <= done[k].end <= fileSize && hasher.updates[k] == data[done[k].start..done[k].end]
      decreases 11 - i
    {
      var shifted := Offset(i);
      var start := if fileSize < shifted then fileSize else shifted;
      var end := if start + Size < fileSize then start + Size else fileSize;
      ScheduleHead(fileSize, i);
      assert Window(start, end) == WindowAt(fileSize, i);
      if start >= fileSize {
        break;
      }
      var buffer := new byte[end - start];
      ReadSync(data, buffer, start);
      ghost var bytes := buffer[..];
      assert bytes == data[start..end];
      ghost var before := hasher.updates;
      hasher.Update(buffer);
      assert hasher.updates == before + [bytes];
      ScheduleExtend(fileSize, i, done);
      done := done + [Window(start, end)];
      i := i + 1;
    }
    fed := hasher.updates;
  }
}
