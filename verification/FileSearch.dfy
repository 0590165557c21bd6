/**
 Reading a file through a positional read that may return fewer bytes than asked for: the chunked
 search for a byte string, which keeps an overlap at the front of one buffer, and the bounded read of
 a whole file.
 */
module FileSearch {
  import opened Outcomes
  import opened Utf8

  const CHUNK: nat := 64 * 1024

  /** Bytes a positional read is willing to return, by position: any function, so any pattern of short reads. */
  type Supply = nat -> nat

  /** Reads return something whenever something is left. */
  ghost predicate Flowing(supply: Supply) { forall p :: supply(p) >= 1 }

  function Least(a: nat, b: nat): nat { if a <= b then a else b }

  function ReadSize(file: Bytes, length: nat, position: nat, supply: Supply): (n: nat)
    ensures n <= length && (position <= |file| ==> position + n <= |file|)
    ensures position < |file| && length > 0 && Flowing(supply) ==> n > 0
  {
    Least(supply(position), Least(length, if position <= |file| then |file| - position else 0))
  }

  /** The needle starts at index `i`. */
  predicate OccursAt(hay: Bytes, needle: Bytes, i: nat) { i + |needle| <= |hay| && hay[i..i + |needle|] == needle }

  predicate Occurs(hay: Bytes, needle: Bytes) { exists i: nat :: i <= |hay| && OccursAt(hay, needle, i) }

  /** A positional read into a buffer. */
  method ReadInto(file: Bytes, buffer: array<byte>, offset: nat, length: nat, position: nat, supply: Supply) returns (n: nat)
    requires offset + length <= buffer.Length && position <= |file|
    modifies buffer
    ensures n == ReadSize(file, length, position, supply)
    ensures buffer[..offset + n] == old(buffer[..offset]) + file[position..position + n]
  {
    n := ReadSize(file, length, position, supply);
    for k := 0 to n
      invariant buffer[..offset + k] == old(buffer[..offset]) + file[position..position + k]
    {
      buffer[offset + k] := file[position + k];
    }
  }

  /** Moves `count` bytes from `from` to the front of the buffer; the two ranges may overlap. */
  method CopyToFront(buffer: array<byte>, from: nat, count: nat)
    requires from + count <= buffer.Length
    modifies buffer
    ensures buffer[..count] == old(buffer[from..from + count])
  {
    ghost var was := buffer[..];
    for k := 0 to count
      invariant forall j :: 0 <= j < k ==> buffer[j] == was[from + j]
      invariant forall j :: k <= j < buffer.Length ==> buffer[j] == was[j]
    {
      buffer[k] := buffer[from + k];
    }
    assert buffer[..count] == was[from..from + count];
    assert old(buffer[from..from + count]) == was[from..from + count];
  }

  /** The needle occurs between two positions of the file. */
  ghost predicate Within(file: Bytes, needle: Bytes, a: nat, b: nat) {
    exists i: nat :: a <= i && i + |needle| <= b && OccursAt(file, needle, i)
  }

  lemma SliceOfSlice(file: Bytes, a: nat, b: nat, i: nat, n: nat)
    requires a + i + n <= b <= |file|
    ensures file[a..b][i..i + n] == file[a + i..a + i + n]
  {
    var x, y := file[a..b][i..i + n], file[a + i..a + i + n];
    assert |x| == |y| && forall k :: 0 <= k < n ==> x[k] == y[k];
  }

  lemma SliceOccurs(file: Bytes, needle: Bytes, a: nat, b: nat)
    requires a <= b <= |file|
    ensures Occurs(file[a..b], needle) <==> Within(file, needle, a, b)
  {
    var slice := file[a..b];
    if Occurs(slice, needle) {
      var i: nat :| i <= |slice| && OccursAt(slice, needle, i);
      SliceOfSlice(file, a, b, i, |needle|);
      assert OccursAt(file, needle, i + a);
    }
    if Within(file, needle, a, b) {
      var i: nat :| a <= i && i + |needle| <= b && OccursAt(file, needle, i);
      SliceOfSlice(file, a, b, i - a, |needle|);
      assert OccursAt(slice, needle, i - a);
    }
  }

  /** A window reaching back far enough sees every occurrence that ends inside its new part. */
  lemma WindowSeesAll(file: Bytes, needle: Bytes, position: nat, overlap: nat, next: nat)
    requires needle != [] && position <= next && overlap == Least(|needle| - 1, position)
    requires !Within(file, needle, 0, position)
    ensures Within(file, needle, 0, next) <==> Within(file, needle, position - overlap, next)
  {
    hide OccursAt;
    if Within(file, needle, 0, next) {
      var i: nat :| i + |needle| <= next && OccursAt(file, needle, i);
      assert !(i + |needle| <= position);
    }
  }

  /** State between rounds: nothing found so far, and the buffer starts with the bytes just before the position. */
  ghost predicate Ready(file: Bytes, needle: Bytes, buffer: array<byte>, overlap: nat, position: nat)
    reads buffer
  {
    && needle != [] && buffer.Length == CHUNK + |needle| - 1 && position <= |file|
    && overlap == Least(|needle| - 1, position) && buffer[..overlap] == file[position - overlap..position]
    && !Within(file, needle, 0, position)
  }

  /** One round: fills the buffer behind the overlap, searches it, and moves the next overlap to the front. */
  method SearchChunk(file: Bytes, needle: Bytes, buffer: array<byte>, overlap: nat, position: nat, supply: Supply)
    returns (read: nat, found: bool, next: nat)
    requires Ready(file, needle, buffer, overlap, position) && position < |file|
    modifies buffer
    ensures Flowing(supply) ==> read > 0
    ensures position + read <= |file|
    ensures read > 0 && found ==> Within(file, needle, 0, position + read)
    ensures read > 0 && !found ==> Ready(file, needle, buffer, next, position + read)
  {
    hide Occurs, Within, Flowing;
    found, next := false, overlap;
    read := ReadInto(file, buffer, overlap, CHUNK, position, supply);
    if read == 0 { return; }
    var total := overlap + read;
    RoundSearch(file, needle, overlap, position, read);
    RoundTail(file, needle, overlap, position, read);
    ghost var window := file[position - overlap..position + read];
    assert buffer[..total] == window;
    found := Occurs(buffer[..total], needle);
    if found { return; }
    next := Least(|needle| - 1, total);
    KeepTail(buffer, total, next, window);
  }

  /** The overlap and the bytes read behind it are a window of the file in which every new occurrence lies. */
  lemma RoundSearch(file: Bytes, needle: Bytes, overlap: nat, position: nat, read: nat)
    requires needle != [] && position + read <= |file| && overlap == Least(|needle| - 1, position)
    requires !Within(file, needle, 0, position)
    ensures file[position - overlap..position] + file[position..position + read] == file[position - overlap..position + read]
    ensures Occurs(file[position - overlap..position + read], needle) <==> Within(file, needle, 0, position + read)
  {
    hide Occurs, Within;
    JoinSlices(file, position - overlap, position, position + read);
    SliceOccurs(file, needle, position - overlap, position + read);
    WindowSeesAll(file, needle, position, overlap, position + read);
  }

  /** The window's tail is the overlap of the next position. */
  lemma RoundTail(file: Bytes, needle: Bytes, overlap: nat, position: nat, read: nat)
    requires needle != [] && position + read <= |file| && overlap == Least(|needle| - 1, position)
    ensures var total, keep := overlap + read, Least(|needle| - 1, overlap + read);
            && keep == Least(|needle| - 1, position + read)
            && file[position - overlap..position + read][total - keep..total - keep + keep] == file[position + read - keep..position + read]
  {
    var total, keep := overlap + read, Least(|needle| - 1, overlap + read);
    SliceOfSlice(file, position - overlap, position + read, total - keep, keep);
  }

  lemma JoinSlices(file: Bytes, a: nat, b: nat, c: nat)
    requires a <= b <= c <= |file|
    ensures file[a..b] + file[b..c] == file[a..c]
  {
  }

  method KeepTail(buffer: array<byte>, total: nat, keep: nat, ghost window: Bytes)
    requires keep <= total <= buffer.Length && buffer[..total] == window
    modifies buffer
    ensures buffer[..keep] == window[total - keep..total - keep + keep]
  {
    assert buffer[total - keep..total - keep + keep] == buffer[..total][total - keep..total - keep + keep];
    CopyToFront(buffer, total - keep, keep);
  }

  /**
   `fileContainsBytes`. An empty needle leaves the buffer one byte short of a chunk, so its first read
   is refused and the answer is no; a read that returns nothing also answers no.
   */
  method FileContainsBytes(file: Bytes, needle: Bytes, supply: Supply) returns (found: bool)
    ensures found ==> needle != [] && Occurs(file, needle)
    ensures Flowing(supply) ==> (found <==> needle != [] && Occurs(file, needle))
  {
    if |file| < |needle| { return false; }
    WholeFile(file, needle);
    var buffer := new byte[CHUNK + |needle| - 1];
    var overlap: nat, position: nat := 0, 0;
    if needle != [] { NothingYet(file, needle); }
    hide Occurs, OccursAt, Within, Flowing;
    while position < |file|
      invariant position <= |file| && overlap <= buffer.Length && overlap <= |needle|
      invariant if needle == [] then position == overlap == 0 else Ready(file, needle, buffer, overlap, position)
      decreases |file| - position
    {
      if overlap + CHUNK > buffer.Length { return false; }
      var read;
      read, found, overlap := SearchChunk(file, needle, buffer, overlap, position, supply);
      if read == 0 { return false; }
      if found {
        WithinGrows(file, needle, position + read, |file|);
        return true;
      }
      position := position + read;
    }
    return false;
  }

  lemma WholeFile(file: Bytes, needle: Bytes)
    ensures Occurs(file, needle) <==> Within(file, needle, 0, |file|)
  {
    assert file[0..|file|] == file;
    SliceOccurs(file, needle, 0, |file|);
  }

  lemma NothingYet(file: Bytes, needle: Bytes)
    requires needle != []
    ensures !Within(file, needle, 0, 0)
  {
  }

  lemma WithinGrows(file: Bytes, needle: Bytes, b: nat, c: nat)
    requires b <= c && Within(file, needle, 0, b)
    ensures Within(file, needle, 0, c)
  {
  }

  /**
   `readBoundedFile`, where `size` is the length reported before reading and `file` what the reads see:
   the whole file or nothing, also when the file has grown or shrunk in between.
   */
  method ReadBoundedFile(file: Bytes, size: nat, maxBytes: nat, supply: Supply) returns (r: Option<Bytes>)
    ensures r.Some? ==> 0 < size <= maxBytes && size <= |file| && r.value == file[..size]
    ensures Flowing(supply) ==> r == if 0 < size <= maxBytes && |file| == size then Some(file) else None
  {
    if size == 0 || size > maxBytes { return None; }
    var result := new byte[size];
    var offset := 0;
    while offset < size
      invariant offset <= size && offset <= |file| && result[..offset] == file[..offset]
      decreases size - offset
    {
      var read := ReadInto(file, result, offset, size - offset, offset, supply);
      if read == 0 { return None; }
      offset := offset + read;
    }
    var overflow := ReadSize(file, 1, offset, supply);
    if overflow != 0 { return None; }
    assert result[..] == result[..size] && (|file| == size ==> file[..size] == file);
    return Some(result[..]);
  }
}
