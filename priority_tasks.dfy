/**
 * The tasks of the console to-do manager (TO-DO.py): a title with a
 * priority, the priority table, and what it means for a list of tasks to be
 * sorted by priority with the order of equal priorities kept.
 */
module PriorityTasks {
  import opened Text

  /** One task as the console manager stores it: the tuple `(task, p_value)`. */
  datatype Item = Item(title: string, priority: int)

  /** `priority_map`: the lower-cased priority names and their ranks. */
  const PriorityMap: map<string, int> := map["high" := 1, "medium" := 2, "low" := 3]

  /**
   * `priority_map.get(priority.lower(), 3)`: the rank of a priority name,
   * ignoring case; a name the table does not know ranks as Low.
   */
  function PriorityOf(name: string): (p: int)
    ensures 1 <= p <= 3
    ensures p == 1 <==> Lower(name) == "high"
    ensures p == 2 <==> Lower(name) == "medium"
    ensures p == 3 <==> Lower(name) != "high" && Lower(name) != "medium"
  {
    var key := Lower(name);
    if key in PriorityMap then PriorityMap[key] else 3
  }

  /** Priority names that differ only in the case of their letters rank alike. */
  lemma PriorityIgnoresCase(name: string)
    ensures PriorityOf(Lower(name)) == PriorityOf(name)
  {
    LowerIdempotent(name);
  }

  /** `priority_text`: the name shown for a rank; every rank but 1 and 2 reads "Low". */
  function PriorityText(p: int): (name: string)
    ensures name in {"High", "Medium", "Low"}
  {
    if p == 1 then "High" else if p == 2 then "Medium" else "Low"
  }

  /**
   * Reading back the name shown for a rank gives the rank again for the three
   * ranks the table produces, and Low for any other.
   */
  lemma PriorityTextRoundTrip(p: int)
    ensures PriorityOf(PriorityText(p)) == if p == 1 || p == 2 then p else 3
  {
    var name := PriorityText(p);
    if p == 1 {
      assert Lower(name) == "high";
    } else if p == 2 {
      assert Lower(name) == "medium";
    } else {
      assert Lower(name) == "low";
    }
  }

  /** A sequence of ranks that never goes down. */
  ghost predicate Nondecreasing(p: seq<int>) {
    forall i, j :: 0 <= i < j < |p| ==> p[i] <= p[j]
  }

  /** Nondecreasing in priority: High (1) before Medium (2) before Low (3). */
  ghost predicate SortedByPriority(s: seq<Item>) {
    Nondecreasing(Priorities(s))
  }

  /** The tasks of `s` that have priority `p`, in the order of `s`. */
  function WithPriority(s: seq<Item>, p: int): (r: seq<Item>)
    ensures |r| <= |s|
    ensures forall x :: x in r ==> x in s && x.priority == p
  {
    if s == [] then []
    else (if s[0].priority == p then [s[0]] else []) + WithPriority(s[1..], p)
  }

  /**
   * `r` lists the tasks of each priority in the same order as `s` does: a
   * stable sort keeps this between its input and its output.
   */
  ghost predicate SameOrderWithinPriority(r: seq<Item>, s: seq<Item>) {
    forall p :: WithPriority(r, p) == WithPriority(s, p)
  }

  lemma {:induction false} WithPriorityConcat(a: seq<Item>, b: seq<Item>, p: int)
    ensures WithPriority(a + b, p) == WithPriority(a, p) + WithPriority(b, p)
  {
    if a == [] {
      assert a + b == b;
    } else {
      assert (a + b)[1..] == a[1..] + b;
      WithPriorityConcat(a[1..], b, p);
    }
  }

  /** `s` with the tasks at `i` and `j` exchanged. */
  function Swap(s: seq<Item>, i: int, j: int): (r: seq<Item>)
    requires 0 <= i < |s| && 0 <= j < |s|
    ensures |r| == |s| && r[i] == s[j] && r[j] == s[i]
    ensures forall k :: 0 <= k < |s| && k != i && k != j ==> r[k] == s[k]
    ensures multiset(r) == multiset(s)
  {
    s[i := s[j]][j := s[i]]
  }

  lemma PairOrderWithinPriority(x: Item, y: Item, p: int)
    requires x.priority != y.priority
    ensures WithPriority([x, y], p) == WithPriority([y, x], p)
  {
    assert [x, y][1..] == [y] && [y, x][1..] == [x];
  }

  /**
   * Exchanging two neighbours of different priority moves no task past one of
   * its own priority, so the order within each priority stays as it was.
   */
  lemma AdjacentSwapKeepsOrderWithinPriority(s: seq<Item>, j: int, t: seq<Item>)
    requires 0 <= j < |s| - 1
    requires s[j].priority != s[j + 1].priority
    requires SameOrderWithinPriority(s, t)
    ensures SameOrderWithinPriority(Swap(s, j, j + 1), t)
  {
    var r := Swap(s, j, j + 1);
    var pre, x, y, post := s[..j], s[j], s[j + 1], s[j + 2..];
    assert s == pre + [x, y] + post;
    assert r == pre + [y, x] + post;
    forall p ensures WithPriority(r, p) == WithPriority(t, p) {
      WithPriorityConcat(pre + [x, y], post, p);
      WithPriorityConcat(pre, [x, y], p);
      WithPriorityConcat(pre + [y, x], post, p);
      WithPriorityConcat(pre, [y, x], p);
      PairOrderWithinPriority(x, y, p);
    }
  }

  /** The ranks of `s`, one per task. */
  function Priorities(s: seq<Item>): (r: seq<int>)
    ensures |r| == |s| && forall k :: 0 <= k < |s| ==> r[k] == s[k].priority
  {
    seq(|s|, k requires 0 <= k < |s| => s[k].priority)
  }

  lemma PrioritiesConcat(a: seq<Item>, b: seq<Item>)
    ensures Priorities(a + b) == Priorities(a) + Priorities(b)
  {
  }

  /** Taking one element out of a sequence takes it out of its multiset. */
  lemma MultisetWithout<T>(s: seq<T>, j: int)
    requires 0 <= j < |s|
    ensures multiset(s[..j] + s[j + 1..]) == multiset(s) - multiset{s[j]}
  {
    assert s == s[..j] + [s[j]] + s[j + 1..];
  }

  /** Taking one task out of a list takes its rank out of the list's ranks. */
  lemma PrioritiesWithout(b: seq<Item>, j: int)
    requires 0 <= j < |b|
    ensures multiset(Priorities(b)) == multiset(Priorities(b[..j] + b[j + 1..])) + multiset{b[j].priority}
  {
    assert b == b[..j] + [b[j]] + b[j + 1..];
    PrioritiesConcat(b[..j] + [b[j]], b[j + 1..]);
    PrioritiesConcat(b[..j], [b[j]]);
    PrioritiesConcat(b[..j], b[j + 1..]);
  }

  /** Taking the head of `a` and an equal task out of `b` leaves rearrangements of each other. */
  lemma RestsPermuted(a: seq<Item>, b: seq<Item>, j: int)
    requires a != [] && 0 <= j < |b| && b[j] == a[0] && multiset(a) == multiset(b)
    ensures multiset(a[1..]) == multiset(b[..j] + b[j + 1..])
  {
    MultisetTail(a);
    MultisetWithout(b, j);
  }

  lemma PrioritiesTail(a: seq<Item>)
    requires a != []
    ensures multiset(Priorities(a)) == multiset(Priorities(a[1..])) + multiset{a[0].priority}
  {
    PrioritiesWithout(a, 0);
    assert a[..0] + a[1..] == a[1..];
  }

  /** Rearranging the tasks rearranges their ranks. */
  lemma {:induction false} PermutedPriorities(a: seq<Item>, b: seq<Item>)
    requires multiset(a) == multiset(b)
    ensures multiset(Priorities(a)) == multiset(Priorities(b))
    decreases |a|
  {
    if a == [] {
      assert |b| == |multiset(b)| == 0;
    } else {
      var x := a[0];
      assert x in multiset(b);
      var j :| 0 <= j < |b| && b[j] == x;
      var rest := b[..j] + b[j + 1..];
      RestsPermuted(a, b, j);
      PermutedPriorities(a[1..], rest);
      PrioritiesTail(a);
      PrioritiesWithout(b, j);
    }
  }

  lemma MultisetTail<T>(s: seq<T>)
    requires s != []
    ensures multiset(s[1..]) == multiset(s) - multiset{s[0]}
  {
    assert s == [s[0]] + s[1..];
  }

  lemma LeastFirst(p: seq<int>, x: int)
    requires Nondecreasing(p) && x in multiset(p)
    ensures p[0] <= x
  {
    var k :| 0 <= k < |p| && p[k] == x;
  }

  lemma TailNondecreasing(p: seq<int>)
    requires p != [] && Nondecreasing(p)
    ensures Nondecreasing(p[1..])
  {
  }

  /** Two nondecreasing sequences of the same numbers start alike. */
  lemma SameLeast(p: seq<int>, q: seq<int>)
    requires Nondecreasing(p) && Nondecreasing(q)
    requires multiset(p) == multiset(q) && p != []
    ensures q != [] && p[0] == q[0]
  {
    assert |q| == |multiset(q)| == |multiset(p)| == |p|;
    assert p[0] in multiset(q);
    assert q[0] in multiset(p);
    LeastFirst(q, p[0]);
    LeastFirst(p, q[0]);
  }

  /** Two nondecreasing sequences of the same numbers are the same sequence. */
  lemma {:induction false} SortedRanksUnique(p: seq<int>, q: seq<int>)
    requires Nondecreasing(p) && Nondecreasing(q)
    requires multiset(p) == multiset(q)
    ensures p == q
    decreases |p|
  {
    if p == [] {
      assert |q| == |multiset(q)| == 0;
    } else {
      SameLeast(p, q);
      MultisetTail(p);
      MultisetTail(q);
      TailNondecreasing(p);
      TailNondecreasing(q);
      SortedRanksUnique(p[1..], q[1..]);
      assert p == [p[0]] + p[1..];
      assert q == [q[0]] + q[1..];
    }
  }

  /**
   * Any two sorted rearrangements of the same tasks list the same ranks in the
   * same order, so bubble, selection and insertion sort agree on the ranks,
   * whatever each does with ties.
   */
  lemma SortedPermutationsAgreeOnRanks(r1: seq<Item>, r2: seq<Item>)
    requires SortedByPriority(r1) && SortedByPriority(r2)
    requires multiset(r1) == multiset(r2)
    ensures Priorities(r1) == Priorities(r2)
  {
    PermutedPriorities(r1, r2);
    SortedRanksUnique(Priorities(r1), Priorities(r2));
  }

  lemma WithPriorityHead(s: seq<Item>)
    requires s != []
    ensures WithPriority(s, s[0].priority) == [s[0]] + WithPriority(s[1..], s[0].priority)
  {
  }

  /** Two sorted lists with the same order within each priority start with the same task. */
  lemma SameHead(r1: seq<Item>, r2: seq<Item>)
    requires r1 != [] && r2 != []
    requires SortedByPriority(r1) && SortedByPriority(r2)
    requires SameOrderWithinPriority(r1, r2)
    ensures r1[0] == r2[0]
  {
    var p1, p2 := r1[0].priority, r2[0].priority;
    assert WithPriority(r1, p1)[0] == r1[0];
    assert WithPriority(r2, p2)[0] == r2[0];
    assert WithPriority(r1, p1)[0] in WithPriority(r2, p1);
    assert WithPriority(r2, p2)[0] in WithPriority(r1, p2);
    assert p1 == p2;
  }

  /** Dropping a common first task keeps the same order within each priority. */
  lemma SameOrderInTails(r1: seq<Item>, r2: seq<Item>)
    requires r1 != [] && r2 != [] && r1[0] == r2[0]
    requires SameOrderWithinPriority(r1, r2)
    ensures SameOrderWithinPriority(r1[1..], r2[1..])
  {
    forall p ensures WithPriority(r1[1..], p) == WithPriority(r2[1..], p) {
      var head := if r1[0].priority == p then [r1[0]] else [];
      assert WithPriority(r1, p) == head + WithPriority(r1[1..], p);
      assert WithPriority(r2, p) == head + WithPriority(r2[1..], p);
      assert WithPriority(r1[1..], p) == WithPriority(r1, p)[|head|..];
      assert WithPriority(r2[1..], p) == WithPriority(r2, p)[|head|..];
    }
  }

  /**
   * A sorted list that keeps the order within each priority of `s` is unique:
   * bubble sort and insertion sort, both stable, return the same list.
   */
  lemma {:induction false} StableSortUnique(r1: seq<Item>, r2: seq<Item>)
    requires SortedByPriority(r1) && SortedByPriority(r2)
    requires SameOrderWithinPriority(r1, r2)
    ensures r1 == r2
    decreases |r1|
  {
    if r1 == [] || r2 == [] {
      if r1 != [] {
        WithPriorityHead(r1);
      } else if r2 != [] {
        WithPriorityHead(r2);
      }
    } else {
      SameHead(r1, r2);
      SameOrderInTails(r1, r2);
      StableSortUnique(r1[1..], r2[1..]);
      assert r1 == [r1[0]] + r1[1..] && r2 == [r2[0]] + r2[1..];
    }
  }
}
