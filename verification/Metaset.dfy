/** The metaset: its metapools sorted by smallest stride, the flat table they form, and
    the compile-time validation of their ranges. */
module Metaset {
  import opened Bits
  import opened Lookup
  import opened Alignment
  import opened Metapool
  import opened Permutations

  // ---------------------------------------------------------------- sorting

  ghost predicate SortedBy(mins: seq<nat>, indices: seq<nat>) {
    && IsPermutation(indices, |mins|)
    && forall i, j | 0 <= i < j < |mins| :: mins[indices[i]] <= mins[indices[j]]
  }

  lemma {:induction false} SwapPermutes(s: seq<nat>, t: seq<nat>, n: nat, i: nat, j: nat)
    requires IsPermutation(s, n) && i < n && j < n && t == s[i := s[j]][j := s[i]]
    ensures IsPermutation(t, n)
  {}

  /** The first `n` positions are final: nothing after them is smaller. */
  ghost predicate SortedUpTo(mins: seq<nat>, s: seq<nat>, n: nat) {
    && IsPermutation(s, |mins|)
    && forall a, b | 0 <= a < n && a < b < |mins| :: mins[s[a]] <= mins[s[b]]
  }

  lemma {:induction false} SwapKeepsSorted(mins: seq<nat>, s: seq<nat>, t: seq<nat>, n: nat, j: nat)
    requires SortedUpTo(mins, s, n) && n < j < |mins| && t == s[n := s[j]][j := s[n]]
    ensures SortedUpTo(mins, t, n)
  {
    SwapPermutes(s, t, |mins|, n, j);
  }

  /** `sort_indices`: exchange sort of the indices, in place. */
  method SortIndices(mins: seq<nat>) returns (indices: array<nat>)
    ensures fresh(indices) && SortedBy(mins, indices[..])
  {
    indices := new nat[|mins|](i => i);
    var i := 0;
    while i < |mins|
      invariant indices.Length == |mins| && i <= |mins|
      invariant SortedUpTo(mins, indices[..], i)
    {
      SettlePosition(mins, indices, i);
      i := i + 1;
    }
  }

  /** The inner loop: exchanges into position `i` whatever is smaller. */
  method SettlePosition(mins: seq<nat>, indices: array<nat>, i: nat)
    requires indices.Length == |mins| && i < |mins| && SortedUpTo(mins, indices[..], i)
    modifies indices
    ensures SortedUpTo(mins, indices[..], i + 1)
  {
    var j := i + 1;
    while j < |mins|
      invariant i < j <= |mins| && SortedUpTo(mins, indices[..], i)
      invariant forall b | i < b < j :: mins[indices[..][i]] <= mins[indices[..][b]]
    {
      ghost var before := indices[..];
      assert before[i] < |mins| && before[j] < |mins|;
      if mins[indices[j]] < mins[indices[i]] {
        indices[i], indices[j] := indices[j], indices[i];
        SwapKeepsSorted(mins, before, indices[..], i, j);
      }
      j := j + 1;
    }
  }

  /** With distinct keys there is only one sorted order. */
  lemma {:induction false} SortUnique(mins: seq<nat>, s: seq<nat>, t: seq<nat>)
    requires SortedBy(mins, s) && SortedBy(mins, t)
    requires forall i, j | 0 <= i < j < |mins| :: mins[i] != mins[j]
    ensures s == t
  {
    forall i | 0 <= i < |mins|
      ensures s[i] == t[i]
    {
      SortedAgree(mins, s, t, i);
    }
  }

  lemma {:induction false} SortedAgree(mins: seq<nat>, s: seq<nat>, t: seq<nat>, n: nat)
    requires SortedBy(mins, s) && SortedBy(mins, t) && n < |mins|
    requires forall i, j | 0 <= i < j < |mins| :: mins[i] != mins[j]
    ensures forall i | 0 <= i <= n :: s[i] == t[i]
  {
    if n > 0 { SortedAgree(mins, s, t, n - 1); }
    var a := PermutationOnto(s, |mins|, t[n]);
    var b := PermutationOnto(t, |mins|, s[n]);
    assert a >= n && b >= n;
    assert mins[s[n]] <= mins[s[a]] && mins[t[n]] <= mins[t[b]];
  }

  /** `sorted_index_map`: the inverse of the sorted order. */
  method SortedIndexMap(sorted: seq<nat>) returns (inverse: array<nat>)
    requires IsPermutation(sorted, |sorted|)
    ensures fresh(inverse) && IsInverse(sorted, inverse[..])
  {
    var n := |sorted|;
    inverse := new nat[n](_ => 0);
    var pos := 0;
    while pos < n
      invariant 0 <= pos <= n
      invariant forall p | 0 <= p < pos :: inverse[sorted[p]] == p
    {
      inverse[sorted[pos]] := pos;
      pos := pos + 1;
    }
    forall k | 0 <= k < n
      ensures inverse[k] < n && sorted[inverse[k]] == k
    {
      var p := PermutationOnto(sorted, n, k);
    }
  }

  /** Each undoes the other. */
  ghost predicate IsInverse(s: seq<nat>, t: seq<nat>) {
    && |t| == |s|
    && (forall p | 0 <= p < |s| :: s[p] < |s| && t[s[p]] == p)
    && (forall k | 0 <= k < |s| :: t[k] < |s| && s[t[k]] == k)
  }

  // ---------------------------------------------------------------- positions in the flat table

  /** Pools before range `n`. */
  function Before(counts: seq<nat>, n: nat): nat
    requires n <= |counts|
  {
    if n == 0 then 0 else Before(counts, n - 1) + counts[n - 1]
  }

  lemma {:induction false} BeforeGrows(counts: seq<nat>, i: nat, j: nat)
    requires i < j <= |counts| && forall k | 0 <= k < |counts| :: counts[k] >= 1
    ensures Before(counts, i) + counts[i] <= Before(counts, j)
    decreases j
  {
    if i < j - 1 { BeforeGrows(counts, i, j - 1); }
  }

  /** `a + static_cast<uint16_t>(b)` on 16-bit words. */
  function Add16(a: nat, b: nat): (c: nat)
    ensures a + b < U16 ==> c == a + b
  {
    (a + b % U16) % U16
  }

  /** `calculate_proxy_offsets`, on 16-bit words. */
  method ProxyOffsets(counts: seq<nat>) returns (offsets: array<nat>)
    requires Before(counts, |counts|) <= MAX_STRIDE_COUNT
    requires forall k | 0 <= k < |counts| :: counts[k] >= 1
    ensures fresh(offsets) && offsets.Length == |counts|
    ensures forall i | 0 <= i < |counts| :: offsets[i] == Before(counts, i)
  {
    offsets := new nat[|counts|](_ => 0);
    var i := 0;
    while i < |counts|
      invariant 0 <= i <= |counts|
      invariant forall k | 0 <= k < i :: offsets[k] == Before(counts, k)
    {
      if i == 0 {
        offsets[i] := 0;
      } else {
        BeforeBound(counts, i);
        offsets[i] := Add16(offsets[i - 1], counts[i - 1]);
      }
      i := i + 1;
    }
  }

  lemma {:induction false} BeforeBound(counts: seq<nat>, i: nat)
    requires i < |counts| && Before(counts, |counts|) <= MAX_STRIDE_COUNT
    requires forall k | 0 <= k < |counts| :: counts[k] >= 1
    ensures Before(counts, i) <= MAX_STRIDE_COUNT
    ensures i > 0 ==> Before(counts, i - 1) + counts[i - 1] <= MAX_STRIDE_COUNT
  {
    BeforeGrows(counts, i, |counts|);
    if i > 0 { BeforeGrows(counts, i - 1, |counts|); }
  }

  /** Every flat index belongs to exactly one pool of exactly one range: existence ... */
  lemma {:induction false} Locate(counts: seq<nat>, n: nat, f: nat) returns (range: nat, pool: nat)
    requires n <= |counts| && f < Before(counts, n)
    ensures range < n && pool < counts[range] && f == Before(counts, range) + pool
  {
    if f >= Before(counts, n - 1) {
      range, pool := n - 1, f - Before(counts, n - 1);
    } else {
      range, pool := Locate(counts, n - 1, f);
    }
  }

  /** ... and uniqueness. */
  lemma {:induction false} LocateUnique(counts: seq<nat>, r: nat, i: nat, r': nat, i': nat)
    requires r < |counts| && i < counts[r] && r' < |counts| && i' < counts[r']
    requires forall k | 0 <= k < |counts| :: counts[k] >= 1
    requires Before(counts, r) + i == Before(counts, r') + i'
    ensures r == r' && i == i'
  {
    if r < r' { BeforeGrows(counts, r, r'); }
    if r' < r { BeforeGrows(counts, r', r); }
  }

  /** The header stored in pool `i` of declared metapool `j` (`create_storage`). */
  function HeaderIndex(counts: seq<nat>, inverse: seq<nat>, j: nat, i: nat): nat
    requires j < |inverse| && inverse[j] <= |counts|
  {
    Before(counts, inverse[j]) + i
  }

  /** The position at which `make_proxies` writes that pool's proxy: it walks the
      metapools as declared but advances by the sorted counts. */
  function ProxyPosition(counts: seq<nat>, j: nat, i: nat): nat
    requires j <= |counts|
  {
    Before(counts, j) + i
  }

  datatype Proxy = Unset | Proxy(metapool: nat, pool: nat)

  /** What the walk over the first `n` declared metapools leaves at position `f`: the proxy
      written there last. Each metapool writes its own number of proxies, `declared[j]`,
      but the walk advances by the counts in sorted order. */
  function WrittenAt(declared: seq<nat>, counts: seq<nat>, n: nat, f: nat): Proxy
    requires n <= |declared| == |counts|
  {
    if n == 0 then Unset
    else if Before(counts, n - 1) <= f < Before(counts, n - 1) + declared[n - 1]
    then Proxy(n - 1, f - Before(counts, n - 1))
    else WrittenAt(declared, counts, n - 1, f)
  }

  ghost predicate Written(table: seq<Proxy>, declared: seq<nat>, counts: seq<nat>, n: nat)
    requires n <= |declared| == |counts|
  {
    forall f | 0 <= f < |table| :: table[f] == WrittenAt(declared, counts, n, f)
  }

  lemma {:induction false} BeforeMono(counts: seq<nat>, i: nat, j: nat)
    requires i <= j <= |counts|
    ensures Before(counts, i) <= Before(counts, j)
    decreases j
  {
    if i < j { BeforeMono(counts, i, j - 1); }
  }

  /** `make_freelist_proxies`: the proxies of metapool `j`, from position `base` on. */
  method WriteProxies(table: array<Proxy>, j: nat, count: nat, base: nat)
    requires base + count <= table.Length
    modifies table
    ensures forall i | 0 <= i < count :: table[base + i] == Proxy(j, i)
    ensures forall k | 0 <= k < table.Length && !(base <= k < base + count) :: table[k] == old(table[k])
  {
    var i := 0;
    while i < count
      invariant i <= count
      invariant forall k | base <= k < base + i :: table[k] == Proxy(j, k - base)
      invariant forall k | 0 <= k < table.Length && !(base <= k < base + i) :: table[k] == old(table[k])
    {
      table[base + i] := Proxy(j, i);
      i := i + 1;
    }
  }

  /** No metapool writes past the table. */
  predicate StaysInside(declared: seq<nat>, counts: seq<nat>, n: nat)
    requires n <= |declared| == |counts|
  {
    forall j | 0 <= j < n :: Before(counts, j) + declared[j] <= Before(counts, |counts|)
  }

  /** Which is to say that every single write falls inside. */
  lemma {:induction false} StaysInsideIff(declared: seq<nat>, counts: seq<nat>)
    requires |declared| == |counts|
    ensures StaysInside(declared, counts, |counts|) <==>
            forall j, i: nat | 0 <= j < |counts| && i < declared[j] :: ProxyPosition(counts, j, i) < Before(counts, |counts|)
  {
    if forall j, i: nat | 0 <= j < |counts| && i < declared[j] :: ProxyPosition(counts, j, i) < Before(counts, |counts|) {
      forall j | 0 <= j < |counts|
        ensures Before(counts, j) + declared[j] <= Before(counts, |counts|)
      {
        if declared[j] > 0 {
          assert ProxyPosition(counts, j, declared[j] - 1) < Before(counts, |counts|);
        } else {
          BeforeMono(counts, j, |counts|);
        }
      }
    }
  }

  /** Declared in ascending order, metapools stay inside. */
  lemma {:induction false} InOrderStaysInside(counts: seq<nat>)
    ensures StaysInside(counts, counts, |counts|)
  {
    forall j | 0 <= j < |counts|
      ensures Before(counts, j) + counts[j] <= Before(counts, |counts|)
    {
      BeforeMono(counts, j + 1, |counts|);
    }
  }

  /** `make_proxies`. The code does not check that the walk stays inside the table; here it
      stops, with `inside` false, before the first write that would not. */
  method MakeProxies(declared: seq<nat>, counts: seq<nat>) returns (table: array<Proxy>, inside: bool)
    requires |declared| == |counts|
    ensures fresh(table) && table.Length == Before(counts, |counts|)
    ensures inside <==> StaysInside(declared, counts, |counts|)
    ensures inside ==> Written(table[..], declared, counts, |counts|)
  {
    var total, n := 0, 0;
    while n < |counts|
      invariant n <= |counts| && total == Before(counts, n)
    {
      total, n := total + counts[n], n + 1;
    }
    table := new Proxy[total](_ => Unset);
    var j, baseOffset := 0, 0;
    while j < |counts|
      invariant j <= |counts| && baseOffset == Before(counts, j)
      invariant Written(table[..], declared, counts, j) && StaysInside(declared, counts, j)
    {
      if baseOffset + declared[j] > table.Length {
        return table, false;
      }
      WriteProxies(table, j, declared[j], baseOffset);
      baseOffset, j := baseOffset + counts[j], j + 1;
    }
    inside := true;
  }

  /** For metapools declared in ascending order every pool's proxy is at its position. */
  lemma {:induction false} WrittenInOrder(counts: seq<nat>, n: nat, j: nat, i: nat)
    requires j < n <= |counts| && i < counts[j]
    ensures WrittenAt(counts, counts, n, ProxyPosition(counts, j, i)) == Proxy(j, i)
    decreases n
  {
    if j < n - 1 {
      BeforeMono(counts, j + 1, n - 1);
      WrittenInOrder(counts, n - 1, j, i);
    }
  }

  /** What stands at a position is the proxy of the last metapool whose walk passed it. */
  lemma {:induction false} WrittenLast(declared: seq<nat>, counts: seq<nat>, n: nat, f: nat, j: nat, i: nat)
    requires n <= |declared| == |counts|
    ensures WrittenAt(declared, counts, n, f) == Proxy(j, i) <==>
            && j < n && i < declared[j] && f == Before(counts, j) + i
            && forall k | j < k < n :: f < Before(counts, k) || f >= Before(counts, k) + declared[k]
  {
    if n > 0 { WrittenLast(declared, counts, n - 1, f, j, i); }
  }

  lemma {:induction false} WrittenWhere(declared: seq<nat>, counts: seq<nat>, n: nat, f: nat, j: nat, i: nat)
    requires n <= |declared| == |counts| && WrittenAt(declared, counts, n, f) == Proxy(j, i)
    ensures j < n && f == ProxyPosition(counts, j, i)
  {
    if f < Before(counts, n - 1) || f >= Before(counts, n - 1) + declared[n - 1] {
      WrittenWhere(declared, counts, n - 1, f, j, i);
    }
  }

  /** Headers and proxies agree for every pool exactly when sorting changed nothing. */
  lemma {:induction false} HeadersMatchIffUnmoved(counts: seq<nat>, sorted: seq<nat>, inverse: seq<nat>)
    requires IsPermutation(sorted, |counts|) && IsInverse(sorted, inverse)
    requires forall k | 0 <= k < |counts| :: counts[k] >= 1
    ensures (forall j, i: nat | 0 <= j < |counts| :: HeaderIndex(counts, inverse, j, i) == ProxyPosition(counts, j, i))
            <==> (forall j | 0 <= j < |counts| :: sorted[j] == j)
  {
    if forall j | 0 <= j < |counts| :: sorted[j] == j {
      assert forall j | 0 <= j < |counts| :: inverse[sorted[j]] == j;
    }
    if forall j, i: nat | 0 <= j < |counts| :: HeaderIndex(counts, inverse, j, i) == ProxyPosition(counts, j, i) {
      forall j | 0 <= j < |counts|
        ensures sorted[j] == j
      {
        assert HeaderIndex(counts, inverse, j, 0) == ProxyPosition(counts, j, 0);
        var k := inverse[j];
        if j < k { BeforeGrows(counts, j, k); }
        if k < j { BeforeGrows(counts, k, j); }
      }
    }
  }

  /** Sorting changes nothing exactly when the smallest strides already ascend. */
  lemma {:induction false} UnmovedIffAscending(mins: seq<nat>, sorted: seq<nat>)
    requires SortedBy(mins, sorted) && forall i, j | 0 <= i < j < |mins| :: mins[i] != mins[j]
    ensures (forall j | 0 <= j < |mins| :: sorted[j] == j) <==> Ascending(mins)
  {
    if forall j | 0 <= j < |mins| :: sorted[j] == j {
      forall i, j | 0 <= i < j < |mins|
        ensures mins[i] < mins[j]
      {
        assert mins[sorted[i]] <= mins[sorted[j]];
      }
    }
    if Ascending(mins) {
      var identity: seq<nat> := seq(|mins|, i => i);
      assert SortedBy(mins, identity);
      SortUnique(mins, sorted, identity);
    }
  }

  /** Main theorem. The header stored in each pool is the position of its proxy exactly
      when the metapools are declared in ascending order of their smallest strides. */
  lemma {:induction false} HeadersMatchIffAscending(mins: seq<nat>, counts: seq<nat>, sorted: seq<nat>, inverse: seq<nat>)
    requires SortedBy(mins, sorted) && IsInverse(sorted, inverse) && |mins| == |counts|
    requires forall i, j | 0 <= i < j < |mins| :: mins[i] != mins[j]
    requires forall k | 0 <= k < |counts| :: counts[k] >= 1
    ensures (forall j, i: nat | 0 <= j < |counts| :: HeaderIndex(counts, inverse, j, i) == ProxyPosition(counts, j, i))
            <==> Ascending(mins)
  {
    HeadersMatchIffUnmoved(counts, sorted, inverse);
    UnmovedIffAscending(mins, sorted);
  }

  /** ... and `free`, which goes from a header to the proxy at that position, finds the pool
      of every block under the same condition. */
  lemma {:induction false} FreeFindsPoolIffAscending(mins: seq<nat>, declared: seq<nat>, counts: seq<nat>,
                                                     sorted: seq<nat>, inverse: seq<nat>)
    requires SortedBy(mins, sorted) && IsInverse(sorted, inverse) && |mins| == |counts| == |declared|
    requires forall i, j | 0 <= i < j < |mins| :: mins[i] != mins[j]
    requires forall k | 0 <= k < |counts| :: declared[k] >= 1 && counts[k] == declared[sorted[k]]
    ensures (forall j, i | 0 <= j < |counts| && 0 <= i < declared[j] ::
               WrittenAt(declared, counts, |counts|, HeaderIndex(counts, inverse, j, i)) == Proxy(j, i))
            <==> Ascending(mins)
  {
    HeadersMatchIffUnmoved(counts, sorted, inverse);
    UnmovedIffAscending(mins, sorted);
    if Ascending(mins) {
      assert declared == counts;
      forall j, i | 0 <= j < |counts| && 0 <= i < declared[j]
        ensures WrittenAt(declared, counts, |counts|, HeaderIndex(counts, inverse, j, i)) == Proxy(j, i)
      {
        assert inverse[sorted[j]] == j;
        WrittenInOrder(counts, |counts|, j, i);
      }
    }
    if forall j, i | 0 <= j < |counts| && 0 <= i < declared[j] ::
         WrittenAt(declared, counts, |counts|, HeaderIndex(counts, inverse, j, i)) == Proxy(j, i) {
      forall j, i: nat | 0 <= j < |counts|
        ensures HeaderIndex(counts, inverse, j, i) == ProxyPosition(counts, j, i)
      {
        assert declared[j] >= 1;
        WrittenWhere(declared, counts, |counts|, HeaderIndex(counts, inverse, j, 0), j, 0);
      }
    }
  }
}
