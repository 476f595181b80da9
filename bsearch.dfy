/** The `bsearch` callback of main.go. Despite its name it is a linear scan over raw memory:
    it copies `elements * size` bytes from `base`, reads the first four bytes of every element
    as a little-endian int32, and returns the address of the first element equal to the key,
    or `base` when there is none. Raw memory is an array of bytes and addresses index it. */
module Bsearch {
  import opened LittleEndian

  datatype Option<T> = None | Some(value: T)

  /** `data` is exactly `count` elements of `size` bytes each, laid out back to back. */
  predicate Packed(data: seq<byte>, size: nat, count: nat)
    decreases count
  {
    if count == 0 then |data| == 0 else size <= |data| && Packed(data[size..], size, count - 1)
  }

  /** Being packed is a statement about the length alone. */
  lemma {:induction false} PackedLength(data: seq<byte>, size: nat, count: nat)
    ensures Packed(data, size, count) <==> |data| == count * size
    decreases count
  {
    if count > 0 {
      assert count * size == (count - 1) * size + size;
      if size <= |data| {
        PackedLength(data[size..], size, count - 1);
      } else {
        assert (count - 1) * size >= 0;
      }
    }
  }

  /** `count` elements of `size` bytes each, not fewer than `i + 1` of them. */
  lemma ElementInside(count: nat, size: nat, i: nat)
    requires size > 0 && i < count
    ensures i * size + size <= count * size
  {
    var rest := count - i - 1;
    assert count * size == (i + 1 + rest) * size;
    assert (i + 1 + rest) * size == i * size + size + rest * size;
  }

  /** The four key bytes of element `i`: the only bytes of it that the scan reads. */
  function KeyBytes(data: seq<byte>, size: nat, count: nat, i: nat): (b: seq<byte>)
    requires 4 <= size && |data| == count * size && i < count
    ensures |b| == 4
  {
    ElementInside(count, size, i);
    data[i * size .. i * size + 4]
  }

  /** The key of element `i`: its first four bytes as a little-endian int32. */
  function ElementKey(data: seq<byte>, size: nat, count: nat, i: nat): int32
    requires 4 <= size && |data| == count * size && i < count
  {
    ElementInside(count, size, i);
    DecodeInt32(data[i * size .. i * size + 4])
  }

  /** Index of the first of the `count` elements of `data` whose key is `k`: the value the scan
      computes, defined element by element from the front. */
  function FirstMatch(data: seq<byte>, size: nat, count: nat, k: int32): (r: Option<nat>)
    requires 4 <= size && |data| == count * size
    ensures r.Some? ==> r.value < count
    decreases count
  {
    if count == 0 then None
    else
      ElementInside(count, size, 0);
      if DecodeInt32(data[..4]) == k then Some(0)
    else match FirstMatch(data[size..], size, count - 1, k)
      case None => None
      case Some(i) => Some(i + 1)
  }

  /** The elements after the first are those of the tail, one index down. */
  lemma ShiftedKeyBytes(data: seq<byte>, size: nat, count: nat, j: nat)
    requires 4 <= size && |data| == count * size && j + 1 < count
    ensures KeyBytes(data[size..], size, count - 1, j) == KeyBytes(data, size, count, j + 1)
  {
    ElementInside(count, size, j + 1);
    assert (j + 1) * size == j * size + size;
  }

  /** The keys of the elements after the first are those of the tail, one index down. */
  lemma ShiftedKey(data: seq<byte>, size: nat, count: nat, j: nat)
    requires 4 <= size && |data| == count * size && j + 1 < count
    ensures ElementKey(data[size..], size, count - 1, j) == ElementKey(data, size, count, j + 1)
  {
    ElementInside(count, size, j + 1);
    assert data[size..][j * size .. j * size + 4] == data[(j + 1) * size .. (j + 1) * size + 4];
  }

  /** The first element's key bytes are the first four bytes. */
  lemma FirstKeyBytes(data: seq<byte>, size: nat, count: nat)
    requires 4 <= size && |data| == count * size && 0 < count
    ensures KeyBytes(data, size, count, 0) == data[..4]
  {
  }

  /** A match found is an element whose key is `k`, and every element before it has another key. */
  lemma {:induction false} FirstMatchIsFirst(data: seq<byte>, size: nat, count: nat, k: int32)
    requires 4 <= size && |data| == count * size
    requires FirstMatch(data, size, count, k).Some?
    ensures var i := FirstMatch(data, size, count, k).value;
      i < count &&
      ElementKey(data, size, count, i) == k &&
      forall j :: 0 <= j < i ==> ElementKey(data, size, count, j) != k
    decreases count
  {
    ElementInside(count, size, 0);
    if DecodeInt32(data[..4]) != k {
      var tail := data[size..];
      FirstMatchIsFirst(tail, size, count - 1, k);
      var i := FirstMatch(tail, size, count - 1, k).value;
      ShiftedKey(data, size, count, i);
      forall j | 0 <= j < i + 1
        ensures ElementKey(data, size, count, j) != k
      {
        if j > 0 { ShiftedKey(data, size, count, j - 1); }
      }
    }
  }

  /** No match is found exactly when no element has the key `k`. */
  lemma {:induction false} FirstMatchNone(data: seq<byte>, size: nat, count: nat, k: int32)
    requires 4 <= size && |data| == count * size
    ensures FirstMatch(data, size, count, k) == None <==>
      forall j :: 0 <= j < count ==> ElementKey(data, size, count, j) != k
    decreases count
  {
    if count > 0 {
      ElementInside(count, size, 0);
      var tail, n := data[size..], count - 1;
      FirstMatchNone(tail, size, n, k);
      forall j | 0 <= j < n
        ensures ElementKey(tail, size, n, j) == ElementKey(data, size, count, j + 1)
      {
        ShiftedKey(data, size, count, j);
      }
      if FirstMatch(data, size, count, k) == None {
        forall j | 0 <= j < count
          ensures ElementKey(data, size, count, j) != k
        {
          if j > 0 { ShiftedKey(data, size, count, j - 1); }
        }
      } else {
        FirstMatchIsFirst(data, size, count, k);
      }
    }
  }

  /** Two packed arrays that differ at most in bytes past the fourth of some element. */
  ghost predicate SameKeyBytes(d1: seq<byte>, d2: seq<byte>, size: nat, count: nat)
    requires 4 <= size && |d1| == count * size && |d2| == count * size
  {
    forall i :: 0 <= i < count ==> KeyBytes(d1, size, count, i) == KeyBytes(d2, size, count, i)
  }

  /** Only the first four bytes of each element are compared: the rest never change the match. */
  lemma {:induction false} OnlyKeyBytesMatter(d1: seq<byte>, d2: seq<byte>, size: nat, count: nat, k: int32)
    requires 4 <= size && |d1| == count * size && |d2| == count * size
    requires SameKeyBytes(d1, d2, size, count)
    ensures FirstMatch(d1, size, count, k) == FirstMatch(d2, size, count, k)
    decreases count
  {
    if count > 0 {
      ElementInside(count, size, 0);
      FirstKeyBytes(d1, size, count);
      FirstKeyBytes(d2, size, count);
      var t1, t2, n := d1[size..], d2[size..], count - 1;
      forall i | 0 <= i < n ensures KeyBytes(t1, size, n, i) == KeyBytes(t2, size, n, i) {
        ShiftedKeyBytes(d1, size, count, i);
        ShiftedKeyBytes(d2, size, count, i);
      }
      OnlyKeyBytesMatter(t1, t2, size, n, k);
    }
  }

  /** Where the scan resumed at byte offset `off` ends, given the match in the remaining bytes. */
  function Resume(base: nat, off: nat, size: nat, found: Option<nat>): nat
  {
    match found
    case None => base
    case Some(j) => base + off + j * size
  }

  /** The state of the scan at byte offset `off` of `data`, `count` elements before the end: the
      scan ends at `target`, where the scan of the remaining bytes resumed at `off` ends. The length
      fact duplicates `Packed` (see PackedLength); it is kept because `FirstMatch` requires it, and
      carrying both keeps the loop's proof cheap. */
  ghost predicate Scanning(base: nat, data: seq<byte>, off: nat, size: nat, count: nat, k: int32, target: nat)
  {
    4 <= size && off <= |data| && Packed(data[off..], size, count) && |data[off..]| == count * size &&
    target == Resume(base, off, size, FirstMatch(data[off..], size, count, k))
  }

  /** One step of the scan: either the element at `off` holds the key and the scan ends there, or
      the scan goes on `size` bytes further with one element fewer. */
  lemma ScanStep(base: nat, data: seq<byte>, off: nat, size: nat, count: nat, k: int32, target: nat)
    requires Scanning(base, data, off, size, count, k, target) && off < |data|
    ensures count > 0 && off + size <= |data|
    ensures DecodeInt32(data[off .. off + size]) == k ==> target == base + off
    ensures DecodeInt32(data[off .. off + size]) != k ==>
      Scanning(base, data, off + size, size, count - 1, k, target)
  {
    var rest := data[off..];
    assert rest[size..] == data[off + size..];
    assert rest[..size] == data[off .. off + size];
    assert (count - 1) * size == count * size - size;
    DecodeReadsFourBytes(rest[..size], rest);
    if DecodeInt32(rest[..size]) != k {
      ResumeShift(base, off, size, FirstMatch(rest[size..], size, count - 1, k));
    }
  }

  /** A match one element further on, seen from one element earlier. */
  lemma ResumeShift(base: nat, off: nat, size: nat, found: Option<nat>)
    ensures Resume(base, off, size, match found case None => None case Some(j) => Some(j + 1)) ==
      Resume(base, off + size, size, found)
  {
    if found.Some? {
      assert (found.value + 1) * size == found.value * size + size;
    }
  }

  /** The scan has run out of bytes: it ends at `base`. */
  lemma ScanDone(base: nat, data: seq<byte>, off: nat, size: nat, count: nat, k: int32, target: nat)
    requires Scanning(base, data, off, size, count, k, target) && off == |data|
    ensures target == base
  {
  }

  /** The element index at which `bsearch` stops, if it finds a match, in memory `mem`:
      the `elements * size` bytes from `base` are scanned for the int32 stored at `key`. */
  function Lookup(mem: seq<byte>, key: nat, base: nat, elements: nat, size: nat): (r: Option<nat>)
    requires key + 4 <= |mem| && base + elements * size <= |mem|
    requires elements == 0 || size == 0 || 4 <= size
    ensures elements == 0 || size == 0 ==> r == None
    ensures r.Some? ==> 4 <= size && r.value < elements
  {
    if elements * size == 0 then None
    else FirstMatch(mem[base .. base + elements * size], size, elements, DecodeInt32(mem[key .. key + 4]))
  }

  /** The address `bsearch` returns for a lookup: the matching element's, or `base`. */
  function Address(base: nat, size: nat, found: Option<nat>): nat
  {
    match found
    case None => base
    case Some(i) => base + i * size
  }

  /** main.go's `bsearch`. The comparison callback (`predicate` in Go, `compare` here) is accepted
      and ignored; the TLS handle is left out. `mem` is only read (no modifies clause): the bytes
      are copied first. Nothing requires the elements to be sorted. */
  method Bsearch(mem: array<byte>, key: nat, base: nat, elements: nat, size: nat, compare: nat)
    returns (r: nat)
    requires key + 4 <= mem.Length && base + elements * size <= mem.Length
    requires elements == 0 || size == 0 || 4 <= size
    ensures r == Address(base, size, Lookup(mem[..], key, base, elements, size))
    ensures elements == 0 || size == 0 ==> r == base
  {
    var k := DecodeInt32(mem[key .. key + 4]);
    var data := mem[base .. base + elements * size];
    var ii := 0;
    ghost var target := Address(base, size, Lookup(mem[..], key, base, elements, size));
    ghost var rest: nat := elements;
    if 4 <= size { PackedLength(data, size, elements); }
    while ii < |data|
      invariant ii <= |data|
      invariant |data| > 0 ==> Scanning(base, data, ii, size, rest, k, target)
      decreases |data| - ii
    {
      ScanStep(base, data, ii, size, rest, k, target);
      var n := DecodeInt32(data[ii .. ii + size]);
      if n == k {
        return base + ii;
      }
      ii, rest := ii + size, rest - 1;
    }
    if |data| > 0 { ScanDone(base, data, ii, size, rest, k, target); }
    return base;
  }

  /** The key of element `j` of the `elements * size` bytes at `base`. */
  function KeyAt(mem: seq<byte>, base: nat, elements: nat, size: nat, j: nat): int32
    requires 4 <= size && base + elements * size <= |mem| && j < elements
  {
    ElementKey(mem[base .. base + elements * size], size, elements, j)
  }

  /** A returned address other than the fallback lies on an element boundary inside the array, that
      element holds the key, and no element before it does. */
  lemma BsearchFound(mem: seq<byte>, key: nat, base: nat, elements: nat, size: nat)
    requires key + 4 <= |mem| && base + elements * size <= |mem|
    requires elements == 0 || size == 0 || 4 <= size
    requires Lookup(mem, key, base, elements, size).Some?
    ensures var i := Lookup(mem, key, base, elements, size).value;
      var off := Address(base, size, Lookup(mem, key, base, elements, size)) - base;
      4 <= size && i < elements && off == i * size && off + size <= elements * size &&
      KeyAt(mem, base, elements, size, i) == DecodeInt32(mem[key .. key + 4]) &&
      forall j :: 0 <= j < i ==> KeyAt(mem, base, elements, size, j) != DecodeInt32(mem[key .. key + 4])
  {
    var data := mem[base .. base + elements * size];
    FirstMatchIsFirst(data, size, elements, DecodeInt32(mem[key .. key + 4]));
    ElementInside(elements, size, Lookup(mem, key, base, elements, size).value);
  }

  /** Nothing is found exactly when no element holds the key (and then `Address` gives `base`). */
  lemma BsearchNotFound(mem: seq<byte>, key: nat, base: nat, elements: nat, size: nat)
    requires key + 4 <= |mem| && base + elements * size <= |mem|
    requires 4 <= size
    ensures Lookup(mem, key, base, elements, size) == None <==>
      forall j :: 0 <= j < elements ==> KeyAt(mem, base, elements, size, j) != DecodeInt32(mem[key .. key + 4])
  {
    var data, k := mem[base .. base + elements * size], DecodeInt32(mem[key .. key + 4]);
    if elements > 0 { ElementInside(elements, size, 0); }
    FirstMatchNone(data, size, elements, k);
    assert Lookup(mem, key, base, elements, size) == FirstMatch(data, size, elements, k);
    assert forall j :: 0 <= j < elements ==> KeyAt(mem, base, elements, size, j) == ElementKey(data, size, elements, j);
  }

  /** "Not found" and "found at index 0" return the same address: a caller cannot tell them apart. */
  lemma NotFoundLooksLikeFirst()
    ensures var found := [7, 0, 0, 0, 7, 0, 0, 0];
      var missing := [7, 0, 0, 0, 8, 0, 0, 0];
      Lookup(found, 0, 4, 1, 4) == Some(0) && Lookup(missing, 0, 4, 1, 4) == None &&
      Address(4, 4, Lookup(found, 0, 4, 1, 4)) == Address(4, 4, Lookup(missing, 0, 4, 1, 4)) == 4
  {
    var found: seq<byte> := [7, 0, 0, 0, 7, 0, 0, 0];
    var missing: seq<byte> := [7, 0, 0, 0, 8, 0, 0, 0];
    assert found[4..8][..4] == found[..4];
    assert DecodeInt32(missing[4..8]) == 8;
  }
}
