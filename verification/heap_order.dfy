/** A binary heap in an array, from index 1 on: its order, and its entries. */
module HeapOrder {

  const SENTINEL: nat := 0xffff_ffff_ffff_ffff

  /** A heap entry holds a frequency above its 16-bit name, a symbol or a tree node. */
  function Name(e: nat): nat { e % 65536 }

  /** The heap entries 1 to n have distinct names, which are exactly the given ones; a sentinel follows. */
  ghost predicate Holds(heap: seq<nat>, n: nat, names: set<nat>) {
    n + 1 < |heap| && heap[n + 1] == SENTINEL
    && (forall a :: 1 <= a <= n ==> heap[a] <= SENTINEL && Name(heap[a]) in names)
    && (forall a, b :: 1 <= a < b <= n ==> Name(heap[a]) != Name(heap[b]))
    && forall x :: x in names ==> Occurs(heap, n, x)
  }

  ghost predicate Occurs(heap: seq<nat>, n: nat, x: nat) {
    n < |heap| && exists a :: 1 <= a <= n && Name(heap[a]) == x
  }

  lemma HoldsSize(heap: seq<nat>, n: nat, names: set<nat>)
    requires Holds(heap, n, names)
    ensures n + 1 < |heap| && heap[n + 1] == SENTINEL && forall a :: 1 <= a <= n ==> heap[a] <= SENTINEL
  {}

  /** The sum of the frequencies, in 64 bits, with the name of the new node. */
  function JoinedEntry(h1: nat, h2: nat, p: nat): nat { (h1 + h2) % 0x1_0000_0000_0000_0000 / 65536 * 65536 + p }

  lemma JoinedName(h1: nat, h2: nat, p: nat)
    requires p < 65536
    ensures Name(JoinedEntry(h1, h2, p)) == p && JoinedEntry(h1, h2, p) <= SENTINEL
  {}

  /** No entry whose parent lies at i or behind is smaller than its parent. */
  ghost predicate OrderedFrom(heap: seq<nat>, n: nat, i: nat) {
    n < |heap| && forall j :: 2 <= j <= n && j / 2 >= i ==> heap[j / 2] <= heap[j]
  }

  /** The same but for the children of `index`, which are not smaller than its parent. */
  ghost predicate OrderedBut(heap: seq<nat>, n: nat, i: nat, index: nat) {
    n < |heap| && 1 <= i <= index
    && (forall j :: 2 <= j <= n && j / 2 >= i && j / 2 != index ==> heap[j / 2] <= heap[j])
    && (index <= n && index / 2 >= i ==> forall j :: 2 <= j <= n && j / 2 == index ==> heap[index / 2] <= heap[j])
  }

  function Exchanged(heap: seq<nat>, a: nat, b: nat): (r: seq<nat>)
    requires a < |heap| && b < |heap|
    ensures |r| == |heap|
  {
    heap[a := heap[b]][b := heap[a]]
  }

  lemma SiftStart(heap: seq<nat>, n: nat, i: nat)
    requires OrderedFrom(heap, n, i + 1) && i >= 1
    ensures OrderedBut(heap, n, i, i)
  {}

  /** Exchanging an entry with its smallest child moves the defect down. */
  lemma SiftStep(heap: seq<nat>, n: nat, i: nat, index: nat, child: nat)
    requires OrderedBut(heap, n, i, index) && (child == 2 * index || child == 2 * index + 1) && child <= n
    requires heap[index] > heap[child] && forall j :: 2 <= j <= n && j / 2 == index ==> heap[child] <= heap[j]
    ensures OrderedBut(Exchanged(heap, index, child), n, i, child)
  {
    var now := Exchanged(heap, index, child);
    forall j | 2 <= j <= n && j / 2 >= i && j / 2 != child ensures now[j / 2] <= now[j] {
      if j == index {
        assert heap[index / 2] <= heap[child];
      }
    }
    forall j | 2 <= j <= n && j / 2 == child ensures now[child / 2] <= now[j] {
      assert heap[j / 2] <= heap[j];
    }
  }

  lemma SiftDone(heap: seq<nat>, n: nat, i: nat, index: nat)
    requires OrderedBut(heap, n, i, index) && forall j :: 2 <= j <= n && j / 2 == index ==> heap[index] <= heap[j]
    ensures OrderedFrom(heap, n, i)
  {}

  lemma {:induction false} FirstIsLeast(heap: seq<nat>, n: nat, a: nat)
    requires OrderedFrom(heap, n, 1) && 1 <= a <= n
    ensures heap[1] <= heap[a]
  {
    if a > 1 { FirstIsLeast(heap, n, a / 2); }
  }

  // -- what is in the heap

  ghost predicate Among(heap: seq<nat>, n: nat, e: nat) {
    n < |heap| && exists a :: 1 <= a <= n && heap[a] == e
  }

  /** The two heaps have the same entries. */
  ghost predicate SameEntries(heap: seq<nat>, now: seq<nat>, n: nat) {
    n < |heap| && n < |now| && forall e :: Among(heap, n, e) <==> Among(now, n, e)
  }

  lemma ExchangeSame(heap: seq<nat>, n: nat, a: nat, b: nat)
    requires n < |heap| && 1 <= a <= n && 1 <= b <= n
    ensures SameEntries(heap, Exchanged(heap, a, b), n)
  {
    var now := Exchanged(heap, a, b);
    forall e ensures Among(heap, n, e) <==> Among(now, n, e) {
      if Among(heap, n, e) {
        var c :| 1 <= c <= n && heap[c] == e;
        assert now[if c == a then b else if c == b then a else c] == e;
      }
      if Among(now, n, e) {
        var c :| 1 <= c <= n && now[c] == e;
        assert heap[if c == a then b else if c == b then a else c] == e;
      }
    }
  }

  lemma SameTogether(heap: seq<nat>, mid: seq<nat>, now: seq<nat>, n: nat)
    requires SameEntries(heap, mid, n) && SameEntries(mid, now, n)
    ensures SameEntries(heap, now, n)
  {
    hide Among;
  }

  /** Taking the first entry out leaves the order below the new first one. */
  lemma PopOrder(heap: seq<nat>, n: nat, sentinel: nat)
    requires OrderedFrom(heap, n, 1) && n >= 2
    ensures OrderedFrom(heap[1 := heap[n]][n := sentinel], n - 1, 2)
  {}

  lemma ReplaceOrder(heap: seq<nat>, n: nat, e: nat)
    requires OrderedFrom(heap, n, 1) && n >= 1
    ensures OrderedFrom(heap[1 := e], n, 2)
  {}

  lemma NoOrder(heap: seq<nat>, n: nat)
    requires n < |heap|
    ensures OrderedFrom(heap, n, n / 2 + 1)
  {}
}
