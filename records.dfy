/**
 * Insertion-ordered string-keyed records: a JavaScript object built by property
 * assignment, or a Python dict. The key order is kept explicitly because
 * `Object.keys` on the first record decides the CSV columns.
 */
module Records {

  datatype Record<V> = Record(keys: seq<string>, vals: map<string, V>)
  {
    /** Keys are distinct and are exactly the keys that carry a value. */
    ghost predicate Valid()
    {
      && (forall i, j :: 0 <= i < j < |keys| ==> keys[i] != keys[j])
      && (forall k :: k in vals <==> k in keys)
    }
  }

  /** `{}` */
  function Empty<V>(): (r: Record<V>)
    ensures r.Valid() && r.keys == [] && r.vals == map[]
  {
    Record([], map[])
  }

  /** `obj[k] = v`: overwrites an existing key in place, appends a new key at the end. */
  function Set<V>(r: Record<V>, k: string, v: V): (r': Record<V>)
    requires r.Valid()
    ensures r'.Valid()
  {
    Record(if k in r.vals then r.keys else r.keys + [k], r.vals[k := v])
  }

  /**
   * The record left by `headers.forEach((h, i) => obj[h] = cells[i])` on a fresh
   * object: the assignments folded from the left.
   */
  function Zip<V>(headers: seq<string>, cells: seq<V>): (r: Record<V>)
    requires |headers| == |cells|
    ensures r.Valid()
    decreases |headers|
  {
    if headers == [] then Empty()
    else
      var n := |headers| - 1;
      Set(Zip(headers[..n], cells[..n]), headers[n], cells[n])
  }

  /** The distinct elements of `s` in order of first occurrence. */
  function Dedup(s: seq<string>): seq<string>
    decreases |s|
  {
    if s == [] then []
    else
      var n := |s| - 1;
      var d := Dedup(s[..n]);
      if s[n] in d then d else d + [s[n]]
  }

  /** Index `j` holds the last occurrence of its element in `s`. */
  ghost predicate LastOccurrence(s: seq<string>, j: int)
  {
    0 <= j < |s| && forall j' :: j < j' < |s| ==> s[j'] != s[j]
  }

  /**
   * The declarative reading of a header-keyed record built from `cells`: its key set
   * is the set of headers, and a header maps to the cell at the header's last index.
   */
  ghost predicate AssignedFrom<V>(headers: seq<string>, cells: seq<V>, r: Record<V>)
    requires |headers| == |cells|
  {
    && r.Valid()
    && (forall k :: k in r.vals <==> k in headers)
    && (forall j :: LastOccurrence(headers, j) ==> r.vals[headers[j]] == cells[j])
  }

  /** `Dedup` keeps every element once and adds nothing. */
  lemma {:induction false} DedupMembers(s: seq<string>)
    ensures forall k :: k in Dedup(s) <==> k in s
    ensures forall i, j :: 0 <= i < j < |Dedup(s)| ==> Dedup(s)[i] != Dedup(s)[j]
    decreases |s|
  {
    if s != [] {
      var n := |s| - 1;
      DedupMembers(s[..n]);
      assert s == s[..n] + [s[n]];
    }
  }

  /** On a sequence without repetitions `Dedup` changes nothing. */
  lemma {:induction false} DedupDistinct(s: seq<string>)
    requires forall i, j :: 0 <= i < j < |s| ==> s[i] != s[j]
    ensures Dedup(s) == s
    decreases |s|
  {
    if s != [] {
      var n := |s| - 1;
      var p := s[..n];
      DedupDistinct(p);
      assert s[n] !in p by {
        forall i | 0 <= i < n ensures p[i] != s[n] { }
      }
      assert p + [s[n]] == s;
    }
  }

  /** The fold satisfies the declarative reading: last assignment wins, no key is missing or extra. */
  lemma ZipAssigned<V>(headers: seq<string>, cells: seq<V>)
    requires |headers| == |cells|
    ensures AssignedFrom(headers, cells, Zip(headers, cells))
  {
    ZipKeySet(headers, cells);
    forall j | LastOccurrence(headers, j) ensures Zip(headers, cells).vals[headers[j]] == cells[j] {
      ZipLastWins(headers, cells, j);
    }
  }

  lemma {:induction false} ZipKeySet<V>(headers: seq<string>, cells: seq<V>)
    requires |headers| == |cells|
    ensures forall k :: k in Zip(headers, cells).vals <==> k in headers
    decreases |headers|
  {
    if headers != [] {
      var n := |headers| - 1;
      ZipKeySet(headers[..n], cells[..n]);
      assert headers == headers[..n] + [headers[n]];
    }
  }

  lemma {:induction false} ZipLastWins<V>(headers: seq<string>, cells: seq<V>, j: int)
    requires |headers| == |cells|
    requires LastOccurrence(headers, j)
    ensures headers[j] in Zip(headers, cells).vals
    ensures Zip(headers, cells).vals[headers[j]] == cells[j]
    decreases |headers|
  {
    var n := |headers| - 1;
    var hs, cs := headers[..n], cells[..n];
    if j < n {
      assert headers[j] != headers[n];
      assert LastOccurrence(hs, j) by {
        forall j' | j < j' < n ensures hs[j'] != hs[j] {
          assert hs[j'] == headers[j'];
        }
      }
      ZipLastWins(hs, cs, j);
    }
  }

  /** The keys of the folded record appear in first-occurrence order of the headers. */
  lemma {:induction false} ZipKeyOrder<V>(headers: seq<string>, cells: seq<V>)
    requires |headers| == |cells|
    ensures Zip(headers, cells).keys == Dedup(headers)
    decreases |headers|
  {
    if headers != [] {
      var n := |headers| - 1;
      ZipKeyOrder(headers[..n], cells[..n]);
    }
  }

  /** A record satisfying the declarative reading is unique: the fold is the only one. */
  lemma AssignedFromUnique<V>(headers: seq<string>, cells: seq<V>, r: Record<V>)
    requires |headers| == |cells|
    requires AssignedFrom(headers, cells, r)
    requires r.keys == Dedup(headers)
    ensures r == Zip(headers, cells)
  {
    var z := Zip(headers, cells);
    ZipAssigned(headers, cells);
    ZipKeyOrder(headers, cells);
    forall k | k in r.vals ensures k in z.vals && r.vals[k] == z.vals[k] {
      var j := LastIndexOf(headers, k);
    }
    assert r.vals == z.vals;
  }

  /** The index of the last occurrence of `k`, which is a member of `s`. */
  function LastIndexOf(s: seq<string>, k: string): (j: nat)
    requires k in s
    ensures LastOccurrence(s, j) && s[j] == k
    decreases |s|
  {
    var n := |s| - 1;
    if s[n] == k then n else LastIndexOf(s[..n], k)
  }
}
