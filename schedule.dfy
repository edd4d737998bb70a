/** The initializer list of `mango_execute` (src/mango.c:744-798): a
    doubly linked list threaded through the module table by `init_next` and
    `init_prev`, with `module_init_head` at its front. Here the list is
    also a sequence of slot indices, and the predicates below say when the
    links spell out that sequence and what the walk keeps true about it. */
module Schedule {
  import opened Words
  import opened Images
  import opened Frames
  import opened Registry

  predicate Distinct(q: seq<nat>) {
    forall i, j :: 0 <= i < j < |q| ==> q[i] != q[j]
  }

  /** The first slot of the list, or INVALID_MODULE for the empty list. */
  function Head(q: seq<nat>): int {
    if q == [] then INVALID_MODULE as int else q[0]
  }

  function After(q: seq<nat>, k: nat): int
    requires k < |q|
  {
    if k + 1 < |q| then q[k + 1] else INVALID_MODULE as int
  }

  function Before(q: seq<nat>, k: nat): int
    requires k < |q|
  {
    if k > 0 then q[k - 1] else INVALID_MODULE as int
  }

  /** Entry k of q is linked to its neighbours in q. */
  predicate LinksAt(mods: seq<ModuleRec>, q: seq<nat>, k: nat)
    requires k < |q| && q[k] < |mods|
  {
    mods[q[k]].initNext as int == After(q, k) && mods[q[k]].initPrev as int == Before(q, k)
  }

  /** The links of slots [0, n) spell the list q: each entry's `init_next`
      and `init_prev` are its neighbours in q (INVALID_MODULE at the ends),
      and a slot that is not on the list has both links INVALID_MODULE. */
  predicate Linked(mods: seq<ModuleRec>, n: nat, q: seq<nat>) {
    n <= |mods| <= 255 && Distinct(q) &&
    (forall k :: 0 <= k < |q| ==> q[k] < n) &&
    (forall k :: 0 <= k < |q| ==> LinksAt(mods, q, k)) &&
    (forall m :: 0 <= m < n && m !in q ==>
       mods[m].initNext == INVALID_MODULE && mods[m].initPrev == INVALID_MODULE)
  }

  function IndexOf(q: seq<nat>, x: nat): (i: nat)
    requires x in q
    ensures i < |q| && q[i] == x && x !in q[..i]
  {
    if q[0] == x then 0
    else
      var i := 1 + IndexOf(q[1..], x);
      assert q[..i] == [q[0]] + q[1..][..i - 1];
      i
  }

  /** Entry y comes before entry x on the list. */
  predicate Precedes(q: seq<nat>, y: nat, x: nat) {
    x in q && y in q && IndexOf(q, y) < IndexOf(q, x)
  }

  /** The import-index array of slot x, empty while it is null. */
  function Imports(mods: seq<ModuleRec>, x: nat): seq<u8>
    requires x < |mods|
  {
    if mods[x].imports.Some? then mods[x].imports.value else []
  }

  /** Every import of slot x is visited. */
  predicate DepsVisited(mods: seq<ModuleRec>, x: nat)
    requires x < |mods|
  {
    forall k :: 0 <= k < |Imports(mods, x)| ==>
      Imports(mods, x)[k] as int < |mods| && mods[Imports(mods, x)[k]].visited
  }

  /** The first `upTo` imports of x are visited or on the list ahead of x. */
  predicate DepsAhead(mods: seq<ModuleRec>, q: seq<nat>, x: nat, upTo: nat)
    requires x < |mods|
  {
    forall k :: 0 <= k < upTo && k < |Imports(mods, x)| ==>
      Imports(mods, x)[k] as int < |mods| &&
      (mods[Imports(mods, x)[k]].visited || Precedes(q, Imports(mods, x)[k] as nat, x))
  }

  /** Every visited module on the list, except possibly `cur`, has each of
      its imports visited or ahead of it. */
  predicate Ordered(mods: seq<ModuleRec>, q: seq<nat>, cur: int) {
    forall x :: x in q && x < |mods| && x != cur && mods[x].visited ==>
      DepsAhead(mods, q, x, |Imports(mods, x)|)
  }

  /** Slot x imports slot y. */
  predicate Edge(mods: seq<ModuleRec>, x: nat, y: nat) {
    x < |mods| && exists k :: 0 <= k < |Imports(mods, x)| && Imports(mods, x)[k] as nat == y
  }

  /** p is a path of one or more imports. */
  predicate Chain(mods: seq<ModuleRec>, p: seq<nat>) {
    |p| >= 2 && forall i :: 0 <= i < |p| - 1 ==> Edge(mods, p[i], p[i + 1])
  }

  /** Slot x reaches slot y through one or more imports. */
  ghost predicate Reaches(mods: seq<ModuleRec>, x: nat, y: nat) {
    exists p :: Chain(mods, p) && p[0] == x && p[|p| - 1] == y
  }

  /** No slot reaches itself: the imports have no cycle. */
  ghost predicate Acyclic(mods: seq<ModuleRec>) {
    forall x :: 0 <= x < |mods| ==> !Reaches(mods, x, x)
  }

  /** Every visited module behind x on the list reaches x: whatever is in
      front of a visited module was put there as one of its imports, or
      an import of one of those, and so on. */
  ghost predicate AheadReached(mods: seq<ModuleRec>, q: seq<nat>) {
    forall x: nat, y: nat :: Precedes(q, x, y) && y < |mods| && mods[y].visited ==> Reaches(mods, y, x)
  }

  /** Every visited module on the list other than `cur` reaches `cur`. */
  ghost predicate CurReached(mods: seq<ModuleRec>, q: seq<nat>, cur: nat) {
    forall y :: y in q && y < |mods| && y != cur && mods[y].visited ==> Reaches(mods, y, cur)
  }

  /** The order modules were taken off in puts each one's imports first,
      except an import that reaches back to its importer, so that the two
      lie on a cycle of imports. */
  ghost predicate DependenciesFirst(mods: seq<ModuleRec>, log: seq<nat>) {
    forall k, j :: 0 <= k < |log| && log[k] < |mods| && 0 <= j < |Imports(mods, log[k])| ==>
      Imports(mods, log[k])[j] as nat in log[..k] || Reaches(mods, Imports(mods, log[k])[j] as nat, log[k])
  }

  /** Every import of every module in `log` was taken off before it. */
  predicate ImportsBefore(mods: seq<ModuleRec>, log: seq<nat>) {
    forall k, j :: 0 <= k < |log| && log[k] < |mods| && 0 <= j < |Imports(mods, log[k])| ==>
      Imports(mods, log[k])[j] as nat in log[..k]
  }

  /** What the walk keeps true between steps, and so between calls of
      `mango_execute`: the links spell q; the modules already taken off
      (`log`) are distinct, off the list, visited, and have every import
      visited; a visited module is on the list or taken off; the list is
      ordered; no slot past n is visited; the application's module is on
      the list or taken off; every visited module on the list reaches the
      modules in front of it; and the log puts dependencies first. */
  ghost predicate Scheduled(mods: seq<ModuleRec>, n: nat, q: seq<nat>, log: seq<nat>) {
    Linked(mods, n, q) && 1 <= n && LogOk(mods, n, q, log) && Ordered(mods, q, -1) &&
    AheadReached(mods, q) && DependenciesFirst(mods, log)
  }

  /** The facts about the modules taken off the list. */
  predicate LogOk(mods: seq<ModuleRec>, n: nat, q: seq<nat>, log: seq<nat>) {
    n <= |mods| &&
    Distinct(log) &&
    (forall k :: 0 <= k < |log| ==>
       log[k] < n && log[k] !in q && mods[log[k]].visited && DepsVisited(mods, log[k])) &&
    (forall x :: 0 <= x < |mods| && mods[x].visited ==> x < n && (x in q || x in log)) &&
    (0 in q || 0 in log)
  }

  /** The walk partway through visiting `cur`: the first i of its imports
      have been handled, so each of them is visited or ahead of it, and
      every other visited module on the list reaches `cur`. */
  ghost predicate Visiting(mods: seq<ModuleRec>, n: nat, q: seq<nat>, log: seq<nat>, cur: nat, i: nat) {
    Linked(mods, n, q) && 1 <= n && LogOk(mods, n, q, log) &&
    cur < |mods| && cur in q && mods[cur].visited &&
    Ordered(mods, q, cur) && DepsAhead(mods, q, cur, i) &&
    AheadReached(mods, q) && CurReached(mods, q, cur) && DependenciesFirst(mods, log)
  }

  /** The list and log every import state starts from: only the
      application's module, unvisited, nothing taken off. */
  lemma {:induction false} StartScheduled(mods: seq<ModuleRec>)
    requires 1 <= |mods| <= 255
    requires mods[0].initNext == INVALID_MODULE && mods[0].initPrev == INVALID_MODULE
    requires forall x :: 0 <= x < |mods| ==> !mods[x].visited
    ensures Scheduled(mods, 1, [0], [])
  {
    assert Linked(mods, 1, [0]);
    forall x: nat | x in [0] ensures IndexOf([0], x) == 0 {
    }
  }

  /** Module-table changes that leave the links of slots [0, n), every
      visited flag, and the imports of every visited slot alone keep what
      the walk relies on. */
  lemma {:induction false} ScheduledKept(mods: seq<ModuleRec>, mods': seq<ModuleRec>, n: nat,
                                         q: seq<nat>, log: seq<nat>)
    requires Scheduled(mods, n, q, log) && |mods'| == |mods|
    requires forall x :: 0 <= x < n ==>
               mods'[x].initNext == mods[x].initNext && mods'[x].initPrev == mods[x].initPrev
    requires forall x :: 0 <= x < |mods| ==> mods'[x].visited == mods[x].visited
    requires forall x :: 0 <= x < |mods| && mods[x].visited ==> mods'[x].imports == mods[x].imports
    requires forall x :: 0 <= x < |mods| && mods[x].imports.Some? ==> mods'[x].imports == mods[x].imports
    ensures Scheduled(mods', n, q, log)
  {
    MoreReaches(mods, mods');
    AheadKept(mods, mods', q);
    DependenciesKept(mods, mods', log);
    forall k | 0 <= k < |q|
      ensures q[k] < |mods'| && LinksAt(mods', q, k)
    {
      assert LinksAt(mods, q, k);
    }
    forall x | 0 <= x < |mods| && mods[x].visited
      ensures Imports(mods', x) == Imports(mods, x)
    {
    }
    forall x | x in q && x < |mods| && x != -1 && mods'[x].visited
      ensures DepsAhead(mods', q, x, |Imports(mods', x)|)
    {
      assert DepsAhead(mods, q, x, |Imports(mods, x)|);
    }
    forall k | 0 <= k < |log|
      ensures DepsVisited(mods', log[k])
    {
      assert DepsVisited(mods, log[k]);
    }
  }

  /** A newly supplied slot n, unvisited and unlinked, joins the slots the
      links cover. */
  lemma {:induction false} ScheduledGrow(mods: seq<ModuleRec>, n: nat, q: seq<nat>, log: seq<nat>)
    requires Scheduled(mods, n, q, log) && n < |mods|
    requires mods[n].initNext == INVALID_MODULE && mods[n].initPrev == INVALID_MODULE
    ensures Scheduled(mods, n + 1, q, log)
  {
  }

  // ---------------------------------------------------------------------
  // Splicing an import in front of the list

  predicate SpliceOk(mods: seq<ModuleRec>, head: u8, p: nat) {
    p < |mods| <= 255 &&
    (mods[p].initPrev != INVALID_MODULE ==> mods[p].initPrev as int < |mods|) &&
    (mods[p].initNext != INVALID_MODULE ==> mods[p].initNext as int < |mods|) &&
    (head != INVALID_MODULE ==> head as int < |mods|)
  }

  /** The statements that move import p to the front of the list headed by
      `head` (src/mango.c:761-774): unlink p from its neighbours, point the
      old head back at p, and make p the head. */
  function Splice(mods: seq<ModuleRec>, head: u8, p: nat): (r: seq<ModuleRec>)
    requires SpliceOk(mods, head, p)
    ensures |r| == |mods|
  {
    var m := mods[p];
    var m1 := if m.initPrev != INVALID_MODULE
              then mods[m.initPrev := mods[m.initPrev].(initNext := m.initNext)] else mods;
    var m2 := if m.initNext != INVALID_MODULE
              then m1[m.initNext := m1[m.initNext].(initPrev := m.initPrev)] else m1;
    var m3 := if head != INVALID_MODULE then m2[head := m2[head].(initPrev := p)] else m2;
    m3[p := m3[p].(initNext := head, initPrev := INVALID_MODULE)]
  }

  /** Slot by slot, a splice changes only links: p now points at the old
      head, p's old predecessor at p's old successor and back, and the old
      head back at p. */
  lemma SpliceAt(mods: seq<ModuleRec>, head: u8, p: nat, x: nat)
    requires SpliceOk(mods, head, p) && x < |mods|
    ensures Splice(mods, head, p)[x] ==
              mods[x].(initNext := if x == p then head
                                   else if x == mods[p].initPrev as int then mods[p].initNext
                                   else mods[x].initNext,
                       initPrev := if x == p then INVALID_MODULE
                                   else if x == head as int then p
                                   else if x == mods[p].initNext as int then mods[p].initPrev
                                   else mods[x].initPrev)
  {
  }

  /** The list after p is moved to its front. */
  function Front(q: seq<nat>, p: nat): (q': seq<nat>)
    ensures |q'| >= 1 && q'[0] == p
  {
    if p in q then [p] + (q[..IndexOf(q, p)] + q[IndexOf(q, p) + 1..]) else [p] + q
  }

  /** Moving p in front keeps every other entry of the list and adds p. */
  lemma FrontMembers(q: seq<nat>, p: nat, x: nat)
    ensures x in Front(q, p) <==> x == p || x in q
  {
    if p in q {
      var j := IndexOf(q, p);
      assert q == q[..j] + [p] + q[j + 1..];
    }
  }

  /** The splice statements turn the links of q into the links of Front(q, p). */
  lemma {:induction false} SpliceLinked(mods: seq<ModuleRec>, n: nat, q: seq<nat>, head: u8, p: nat)
    requires Linked(mods, n, q) && p < n && head as int == Head(q) && p != head as int
    ensures SpliceOk(mods, head, p)
    ensures Linked(Splice(mods, head, p), n, Front(q, p))
  {
    if p in q {
      SpliceLinkedIn(mods, n, q, head, p);
    } else {
      SpliceLinkedOut(mods, n, q, head, p);
    }
  }

  /** Where the entries of q land in Front(q, p) when p is at index j of q. */
  lemma FrontIndex(q: seq<nat>, p: nat)
    requires p in q
    ensures |Front(q, p)| == |q|
    ensures forall i :: 0 <= i < |q| - 1 ==>
              Front(q, p)[i + 1] == if i < IndexOf(q, p) then q[i] else q[i + 1]
  {
  }

  lemma {:induction false} FrontDistinct(q: seq<nat>, p: nat)
    requires Distinct(q)
    ensures Distinct(Front(q, p))
  {
    var q' := Front(q, p);
    if p in q {
      var j := IndexOf(q, p);
      FrontIndex(q, p);
      forall a, b | 0 <= a < b < |q'| ensures q'[a] != q'[b] {
        var a' := if a == 0 then j else if a - 1 < j then a - 1 else a;
        var b' := if b - 1 < j then b - 1 else b;
        assert q'[a] == q[a'] && q'[b] == q[b'];
      }
    } else {
      forall a, b | 0 <= a < b < |q'| ensures q'[a] != q'[b] {
        if a > 0 {
          assert q'[a] == q[a - 1];
        }
        assert q'[b] == q[b - 1];
      }
    }
  }

  /** The splice slot by slot, as a relation between the table before and
      after: what SpliceAt states for every slot. */
  predicate SplicedAs(mods: seq<ModuleRec>, mods': seq<ModuleRec>, head: u8, p: nat) {
    p < |mods| <= 255 && |mods'| == |mods| &&
    forall x :: 0 <= x < |mods| ==>
      mods'[x] == mods[x].(initNext := if x == p then head
                                       else if x == mods[p].initPrev as int then mods[p].initNext
                                       else mods[x].initNext,
                           initPrev := if x == p then INVALID_MODULE
                                       else if x == head as int then p
                                       else if x == mods[p].initNext as int then mods[p].initPrev
                                       else mods[x].initPrev)
  }

  lemma SplicedAsSplice(mods: seq<ModuleRec>, head: u8, p: nat)
    requires SpliceOk(mods, head, p)
    ensures SplicedAs(mods, Splice(mods, head, p), head, p)
  {
    forall x | 0 <= x < |mods| {
      SpliceAt(mods, head, p, x);
    }
  }

  /** q' is q with its entry j, which is p, moved to the front. */
  predicate FrontIn(q: seq<nat>, q': seq<nat>, p: nat, j: nat) {
    j < |q| && q[j] == p && |q'| == |q| && q'[0] == p &&
    forall i {:trigger q'[i]} :: 0 < i < |q| ==> q'[i] == if i <= j then q[i - 1] else q[i]
  }

  lemma FrontInFront(q: seq<nat>, p: nat)
    requires p in q
    ensures FrontIn(q, Front(q, p), p, IndexOf(q, p))
  {
    FrontLength(q, p);
    forall i | 0 < i < |q|
      ensures Front(q, p)[i] == if i <= IndexOf(q, p) then q[i - 1] else q[i]
    {
      FrontAt(q, p, i - 1);
    }
  }

  lemma FrontLength(q: seq<nat>, p: nat)
    ensures |Front(q, p)| == if p in q then |q| else |q| + 1
  {
  }

  /** Entry i + 1 of Front(q, p) when p is on the list. */
  lemma FrontAt(q: seq<nat>, p: nat, i: nat)
    requires p in q && i + 1 < |q|
    ensures Front(q, p)[i + 1] == if i < IndexOf(q, p) then q[i] else q[i + 1]
  {
  }

  lemma {:induction false} SpliceLinkedIn(mods: seq<ModuleRec>, n: nat, q: seq<nat>, head: u8, p: nat)
    requires Linked(mods, n, q) && p < n && p in q && head as int == Head(q) && p != head as int
    ensures SpliceOk(mods, head, p)
    ensures Linked(Splice(mods, head, p), n, Front(q, p))
  {
    var j := IndexOf(q, p);
    assert LinksAt(mods, q, j);
    assert SpliceOk(mods, head, p);
    SplicedAsSplice(mods, head, p);
    FrontInFront(q, p);
    FrontDistinct(q, p);
    forall x ensures x in Front(q, p) <==> x in q {
      FrontMembers(q, p, x);
    }
    LinkedIn(mods, Splice(mods, head, p), n, q, Front(q, p), head, p, j);
  }

  /** Moving entry j (not the first) of the list to the front relinks the
      table into the new list. */
  lemma {:induction false} LinkedIn(mods: seq<ModuleRec>, mods': seq<ModuleRec>, n: nat,
                                    q: seq<nat>, q': seq<nat>, head: u8, p: nat, j: nat)
    requires Linked(mods, n, q) && FrontIn(q, q', p, j) && 0 < j && head as int == q[0]
    requires SplicedAs(mods, mods', head, p) && Distinct(q')
    requires forall x :: x in q' <==> x in q
    ensures Linked(mods', n, q')
  {
    forall k | 0 <= k < |q'|
      ensures q'[k] < n && LinksAt(mods', q', k)
    {
      assert q'[k] in q;
      SpliceInAt(mods, mods', n, q, q', head, p, j, k);
    }
    forall x | 0 <= x < n && x !in q'
      ensures mods'[x].initNext == INVALID_MODULE && mods'[x].initPrev == INVALID_MODULE
    {
      SpliceInOff(mods, mods', n, q, head, p, j, x);
    }
  }

  /** A slot off the list is not touched by splicing p. */
  lemma {:induction false} SpliceInOff(mods: seq<ModuleRec>, mods': seq<ModuleRec>, n: nat,
                                       q: seq<nat>, head: u8, p: nat, j: nat, x: nat)
    requires Linked(mods, n, q) && j < |q| && q[j] == p && 0 < j && head as int == q[0]
    requires SplicedAs(mods, mods', head, p)
    requires x < n && x !in q
    ensures mods'[x].initNext == INVALID_MODULE && mods'[x].initPrev == INVALID_MODULE
  {
    assert LinksAt(mods, q, j);
    assert x != q[j - 1] && x != q[0] && x != q[j];
    if j + 1 < |q| {
      assert x != q[j + 1];
    }
  }

  /** Entry k of the new list is linked to its new neighbours. */
  lemma {:induction false} SpliceInAt(mods: seq<ModuleRec>, mods': seq<ModuleRec>, n: nat,
                                      q: seq<nat>, q': seq<nat>, head: u8, p: nat, j: nat, k: nat)
    requires Linked(mods, n, q) && FrontIn(q, q', p, j) && 0 < j && head as int == q[0]
    requires SplicedAs(mods, mods', head, p) && k < |q|
    ensures q'[k] < |mods'| && LinksAt(mods', q', k)
  {
    if k == 0 {
      assert q'[1] == q[0];
    } else if k <= j {
      SpliceInBefore(mods, mods', n, q, q', head, p, j, k);
    } else {
      SpliceInAfter(mods, mods', n, q, q', head, p, j, k);
    }
  }

  /** An entry that was ahead of p moves back by one place. */
  lemma {:induction false} SpliceInBefore(mods: seq<ModuleRec>, mods': seq<ModuleRec>, n: nat,
                                          q: seq<nat>, q': seq<nat>, head: u8, p: nat, j: nat, k: nat)
    requires Linked(mods, n, q) && FrontIn(q, q', p, j) && 0 < j && head as int == q[0]
    requires SplicedAs(mods, mods', head, p) && 0 < k <= j && k < |q|
    ensures q'[k] < |mods'| && LinksAt(mods', q', k)
  {
    var i := k - 1;
    assert q'[k] == q[i];
    assert LinksAt(mods, q, j);
    assert LinksAt(mods, q, i);
    assert q[i] != p;
    if j + 1 < |q| {
      assert q[i] != q[j + 1];
    }
    if k + 1 < |q| {
      assert q'[k + 1] == if k < j then q[k] else q[k + 1];
    }
    if k >= 2 {
      assert q'[k - 1] == q[k - 2];
      assert q[i] != q[0];
    }
  }

  /** An entry that was behind p keeps its place. */
  lemma {:induction false} SpliceInAfter(mods: seq<ModuleRec>, mods': seq<ModuleRec>, n: nat,
                                         q: seq<nat>, q': seq<nat>, head: u8, p: nat, j: nat, k: nat)
    requires Linked(mods, n, q) && FrontIn(q, q', p, j) && 0 < j && head as int == q[0]
    requires SplicedAs(mods, mods', head, p) && j < k < |q|
    ensures q'[k] < |mods'| && LinksAt(mods', q', k)
  {
    assert q'[k] == q[k];
    assert LinksAt(mods, q, j);
    assert LinksAt(mods, q, k);
    assert q[k] != q[0] && q[k] != q[j - 1] && q[k] != p;
    if k + 1 < |q| {
      assert q'[k + 1] == q[k + 1];
    }
    assert q'[k - 1] == if k - 1 <= j then q[k - 2] else q[k - 1];
  }

  lemma {:induction false} SpliceLinkedOut(mods: seq<ModuleRec>, n: nat, q: seq<nat>, head: u8, p: nat)
    requires Linked(mods, n, q) && p < n && p !in q && head as int == Head(q)
    ensures SpliceOk(mods, head, p)
    ensures Linked(Splice(mods, head, p), n, Front(q, p))
  {
    assert mods[p].initPrev == INVALID_MODULE && mods[p].initNext == INVALID_MODULE;
    assert SpliceOk(mods, head, p);
    SplicedAsSplice(mods, head, p);
    FrontDistinct(q, p);
    LinkedOut(mods, Splice(mods, head, p), n, q, Front(q, p), head, p);
  }

  /** Putting an entry that was off the list in front of it relinks the
      table into the new list. */
  lemma {:induction false} LinkedOut(mods: seq<ModuleRec>, mods': seq<ModuleRec>, n: nat,
                                     q: seq<nat>, q': seq<nat>, head: u8, p: nat)
    requires Linked(mods, n, q) && p < n && p !in q && head as int == Head(q)
    requires q' == [p] + q && SplicedAs(mods, mods', head, p) && Distinct(q')
    ensures Linked(mods', n, q')
  {
    forall k | 0 <= k < |q'|
      ensures q'[k] < n && LinksAt(mods', q', k)
    {
      if k > 0 {
        assert q'[k] == q[k - 1];
        assert LinksAt(mods, q, k - 1);
        assert q[k - 1] != p;
      }
      if k > 1 {
        assert q[k - 1] != q[0];
      }
    }
    forall x | 0 <= x < n && x !in q'
      ensures mods'[x].initNext == INVALID_MODULE && mods'[x].initPrev == INVALID_MODULE
    {
      assert x != p && x !in q;
      if q != [] {
        assert x != q[0];
      }
    }
  }

  /** An entry that came before x still does after p moves to the front,
      and p itself now comes before every other entry. */
  lemma {:induction false} FrontPrecedes(q: seq<nat>, p: nat, x: nat, y: nat)
    requires Distinct(q) && x in q && x != p
    ensures Precedes(Front(q, p), p, x)
    ensures Precedes(q, y, x) && y != p ==> Precedes(Front(q, p), y, x)
  {
    var q' := Front(q, p);
    FrontDistinct(q, p);
    FrontMembers(q, p, x);
    FrontMembers(q, p, y);
    DistinctIndex(q', p, 0);
    var i := IndexOf(q, x);
    var ix := FrontPos(q, p, i);
    DistinctIndex(q', x, ix);
    if Precedes(q, y, x) && y != p {
      var iy := FrontPos(q, p, IndexOf(q, y));
      DistinctIndex(q', y, iy);
    }
  }

  /** Where entry i of q (not p itself) sits in Front(q, p); positions
      keep their order. */
  lemma FrontPos(q: seq<nat>, p: nat, i: nat) returns (i': nat)
    requires Distinct(q) && i < |q| && q[i] != p
    ensures 0 < i' < |Front(q, p)| && Front(q, p)[i'] == q[i]
    ensures i' == if p in q && IndexOf(q, p) < i then i else i + 1
  {
    FrontLength(q, p);
    if p in q {
      var j := IndexOf(q, p);
      if j < i {
        i' := i;
        FrontAt(q, p, i - 1);
      } else {
        i' := i + 1;
        FrontAt(q, p, i);
      }
    } else {
      i' := i + 1;
    }
  }

  lemma DistinctIndex(q: seq<nat>, x: nat, i: nat)
    requires Distinct(q) && i < |q| && q[i] == x
    ensures IndexOf(q, x) == i
  {
  }

  // ---------------------------------------------------------------------
  // Taking the head off the list

  predicate DequeueOk(mods: seq<ModuleRec>, h: nat) {
    h < |mods| <= 255 && (mods[h].initNext != INVALID_MODULE ==> mods[h].initNext as int < |mods|)
  }

  /** The statements that take the visited head h off the list
      (src/mango.c:777-784): its successor becomes the head, h's links and
      the new head's back link are cleared. */
  function Dequeue(mods: seq<ModuleRec>, h: nat): (r: seq<ModuleRec>)
    requires DequeueOk(mods, h)
    ensures |r| == |mods|
  {
    var next := mods[h].initNext;
    var m1 := mods[h := mods[h].(initNext := INVALID_MODULE, initPrev := INVALID_MODULE)];
    if next != INVALID_MODULE then m1[next := m1[next].(initPrev := INVALID_MODULE)] else m1
  }

  lemma DequeueAt(mods: seq<ModuleRec>, h: nat, x: nat)
    requires DequeueOk(mods, h) && x < |mods|
    ensures Dequeue(mods, h)[x] ==
              mods[x].(initNext := if x == h then INVALID_MODULE else mods[x].initNext,
                       initPrev := if x == h || x == mods[h].initNext as int then INVALID_MODULE
                                   else mods[x].initPrev)
  {
  }

  /** mods' is mods with the links Dequeue clears for head h cleared. */
  predicate DequeuedAs(mods: seq<ModuleRec>, mods': seq<ModuleRec>, h: nat) {
    DequeueOk(mods, h) && |mods'| == |mods| &&
    forall x :: 0 <= x < |mods| ==>
      mods'[x] == mods[x].(initNext := if x == h then INVALID_MODULE else mods[x].initNext,
                           initPrev := if x == h || x == mods[h].initNext as int then INVALID_MODULE
                                       else mods[x].initPrev)
  }

  lemma DequeuedAsDequeue(mods: seq<ModuleRec>, h: nat)
    requires DequeueOk(mods, h)
    ensures DequeuedAs(mods, Dequeue(mods, h), h)
  {
    forall x | 0 <= x < |mods| {
      DequeueAt(mods, h, x);
    }
  }

  /** Dequeuing the head of q leaves the links of the rest of q. */
  lemma DequeueLinked(mods: seq<ModuleRec>, n: nat, q: seq<nat>)
    requires Linked(mods, n, q) && q != []
    ensures DequeueOk(mods, q[0])
    ensures mods[q[0]].initNext as int == Head(q[1..])
    ensures Linked(Dequeue(mods, q[0]), n, q[1..])
  {
    assert LinksAt(mods, q, 0);
    DequeuedAsDequeue(mods, q[0]);
    DequeuedLinked(mods, Dequeue(mods, q[0]), n, q);
  }

  lemma DequeuedLinked(mods: seq<ModuleRec>, mods': seq<ModuleRec>, n: nat, q: seq<nat>)
    requires Linked(mods, n, q) && q != [] && DequeuedAs(mods, mods', q[0])
    requires mods[q[0]].initNext as int == Head(q[1..])
    ensures Linked(mods', n, q[1..])
  {
    var t := q[1..];
    forall k | 0 <= k < |t|
      ensures t[k] < |mods'| && LinksAt(mods', t, k)
    {
      assert LinksAt(mods, q, k + 1);
      assert t[k] == q[k + 1] && t[k] != q[0];
      if k > 0 {
        assert t[k] != q[1];
      }
    }
    forall x | 0 <= x < n && x !in t
      ensures mods'[x].initNext == INVALID_MODULE && mods'[x].initPrev == INVALID_MODULE
    {
      if x != q[0] {
        assert x !in q;
      }
    }
  }

  /** An order fact about the list survives taking its head off, unless it
      was about the head. */
  lemma {:induction false} TailPrecedes(q: seq<nat>, x: nat, y: nat)
    requires Distinct(q) && q != [] && Precedes(q, y, x) && y != q[0] && x != q[0]
    ensures Precedes(q[1..], y, x)
  {
    var i := IndexOf(q, x);
    var iy := IndexOf(q, y);
    assert i > 0 && iy > 0;
    assert q[1..][i - 1] == x && q[1..][iy - 1] == y;
    DistinctTail(q);
    DistinctIndex(q[1..], x, i - 1);
    DistinctIndex(q[1..], y, iy - 1);
  }

  lemma DistinctTail(q: seq<nat>)
    requires Distinct(q) && q != []
    ensures Distinct(q[1..])
  {
    forall a, b | 0 <= a < b < |q| - 1 ensures q[1..][a] != q[1..][b] {
      assert q[1..][a] == q[a + 1] && q[1..][b] == q[b + 1];
    }
  }

  // ---------------------------------------------------------------------
  // Reachability

  /** An import is reached in one step. */
  lemma ReachEdge(mods: seq<ModuleRec>, x: nat, k: nat)
    requires x < |mods| && k < |Imports(mods, x)|
    ensures Reaches(mods, x, Imports(mods, x)[k] as nat)
  {
    var p := [x, Imports(mods, x)[k] as nat];
    assert Edge(mods, p[0], p[1]);
    assert Chain(mods, p);
  }

  /** A path from x to y goes on to each import of y. */
  lemma ReachStep(mods: seq<ModuleRec>, x: nat, y: nat, k: nat)
    requires Reaches(mods, x, y) && y < |mods| && k < |Imports(mods, y)|
    ensures Reaches(mods, x, Imports(mods, y)[k] as nat)
  {
    var p :| Chain(mods, p) && p[0] == x && p[|p| - 1] == y;
    var z := Imports(mods, y)[k] as nat;
    var p' := p + [z];
    assert Edge(mods, y, z);
    forall i | 0 <= i < |p'| - 1 ensures Edge(mods, p'[i], p'[i + 1]) {
      if i < |p| - 1 {
        assert p'[i] == p[i] && p'[i + 1] == p[i + 1];
      }
    }
    assert Chain(mods, p');
  }

  /** An import of x that reaches x back closes a cycle through x. */
  lemma ReachBack(mods: seq<ModuleRec>, x: nat, k: nat)
    requires x < |mods| && k < |Imports(mods, x)|
    ensures Reaches(mods, Imports(mods, x)[k] as nat, x) ==> Reaches(mods, x, x)
  {
    if Reaches(mods, Imports(mods, x)[k] as nat, x) {
      var p :| Chain(mods, p) && p[0] == Imports(mods, x)[k] as nat && p[|p| - 1] == x;
      var p' := [x] + p;
      assert Edge(mods, x, p[0]);
      forall i | 0 <= i < |p'| - 1 ensures Edge(mods, p'[i], p'[i + 1]) {
        if i > 0 {
          assert p'[i] == p[i - 1] && p'[i + 1] == p[i];
        }
      }
      assert Chain(mods, p');
    }
  }

  /** A table whose non-empty import arrays are kept reaches at least what
      it reached before. */
  lemma MoreReaches(mods: seq<ModuleRec>, mods': seq<ModuleRec>)
    requires |mods'| == |mods|
    requires forall x :: 0 <= x < |mods| && Imports(mods, x) != [] ==> Imports(mods', x) == Imports(mods, x)
    ensures forall x, y :: Reaches(mods, x, y) ==> Reaches(mods', x, y)
  {
    forall x, y | Reaches(mods, x, y) ensures Reaches(mods', x, y) {
      var p :| Chain(mods, p) && p[0] == x && p[|p| - 1] == y;
      forall i | 0 <= i < |p| - 1 ensures Edge(mods', p[i], p[i + 1]) {
        assert Edge(mods, p[i], p[i + 1]);
      }
      assert Chain(mods', p);
    }
  }

  /** Tables with the same imports reach the same slots. */
  lemma SameReaches(mods: seq<ModuleRec>, mods': seq<ModuleRec>)
    requires SameFacts(mods, mods')
    ensures forall x, y :: Reaches(mods', x, y) <==> Reaches(mods, x, y)
  {
    forall x | 0 <= x < |mods| ensures Imports(mods', x) == Imports(mods, x) {
    }
    MoreReaches(mods, mods');
    MoreReaches(mods', mods);
  }

  /** The reach facts about the list survive a change that keeps the
      visited bits and reaches at least as much. */
  lemma AheadKept(mods: seq<ModuleRec>, mods': seq<ModuleRec>, q: seq<nat>)
    requires AheadReached(mods, q) && |mods'| == |mods|
    requires forall x :: 0 <= x < |mods| ==> mods'[x].visited == mods[x].visited
    requires forall x, y :: Reaches(mods, x, y) ==> Reaches(mods', x, y)
    ensures AheadReached(mods', q)
  {
  }

  /** The log keeps putting dependencies first when its modules keep
      their imports and the table reaches at least as much. */
  lemma DependenciesKept(mods: seq<ModuleRec>, mods': seq<ModuleRec>, log: seq<nat>)
    requires DependenciesFirst(mods, log) && |mods'| == |mods|
    requires forall k :: 0 <= k < |log| && log[k] < |mods| ==> Imports(mods', log[k]) == Imports(mods, log[k])
    requires forall x, y :: Reaches(mods, x, y) ==> Reaches(mods', x, y)
    ensures DependenciesFirst(mods', log)
  {
    forall k, j | 0 <= k < |log| && log[k] < |mods'| && 0 <= j < |Imports(mods', log[k])|
      ensures Imports(mods', log[k])[j] as nat in log[..k] ||
              Reaches(mods', Imports(mods', log[k])[j] as nat, log[k])
    {
      assert Imports(mods', log[k]) == Imports(mods, log[k]);
    }
  }

  /** Without cycles, every import is taken off before its importer. */
  lemma AcyclicImportsBefore(mods: seq<ModuleRec>, log: seq<nat>)
    requires DependenciesFirst(mods, log)
    ensures Acyclic(mods) ==> ImportsBefore(mods, log)
  {
    if Acyclic(mods) {
      forall k, j | 0 <= k < |log| && log[k] < |mods| && 0 <= j < |Imports(mods, log[k])|
        ensures Imports(mods, log[k])[j] as nat in log[..k]
      {
        ReachBack(mods, log[k], j);
      }
    }
  }

  /** An order between entries other than p in Front(q, p) was already the
      order in q. */
  lemma {:induction false} FrontPrecedesBack(q: seq<nat>, p: nat, a: nat, b: nat)
    requires Distinct(q) && Precedes(Front(q, p), a, b) && a != p && b != p
    ensures Precedes(q, a, b)
  {
    var q' := Front(q, p);
    FrontDistinct(q, p);
    FrontMembers(q, p, a);
    FrontMembers(q, p, b);
    var ia, ib := IndexOf(q, a), IndexOf(q, b);
    var ia' := FrontPos(q, p, ia);
    var ib' := FrontPos(q, p, ib);
    DistinctIndex(q', a, ia');
    DistinctIndex(q', b, ib');
    if p in q {
      var j := IndexOf(q, p);
      assert j != ia && j != ib;
    }
  }

  /** An order in the tail of the list was the order in the list. */
  lemma {:induction false} TailPrecedesBack(q: seq<nat>, a: nat, b: nat)
    requires Distinct(q) && q != [] && Precedes(q[1..], a, b)
    ensures Precedes(q, a, b)
  {
    var t := q[1..];
    var ia, ib := IndexOf(t, a), IndexOf(t, b);
    assert q[ia + 1] == a && q[ib + 1] == b;
    DistinctIndex(q, a, ia + 1);
    DistinctIndex(q, b, ib + 1);
  }

  /** Splicing the unvisited import p of `cur` in front: every visited
      module behind p reaches `cur`, or is `cur`, and so reaches p. */
  lemma {:induction false} FrontReached(mods: seq<ModuleRec>, mods': seq<ModuleRec>, q: seq<nat>,
                                        cur: nat, i: nat)
    requires AheadReached(mods, q) && CurReached(mods, q, cur) && SameFacts(mods, mods') && Distinct(q)
    requires cur < |mods| && cur in q && i < |Imports(mods, cur)|
    requires Imports(mods, cur)[i] as int < |mods| && !mods[Imports(mods, cur)[i]].visited
    ensures AheadReached(mods', Front(q, Imports(mods, cur)[i] as nat))
    ensures CurReached(mods', Front(q, Imports(mods, cur)[i] as nat), cur)
  {
    var p := Imports(mods, cur)[i] as nat;
    var q' := Front(q, p);
    SameReaches(mods, mods');
    forall a: nat, b: nat | Precedes(q', a, b) && b < |mods'| && mods'[b].visited
      ensures Reaches(mods', b, a)
    {
      assert b != p;
      FrontMembers(q, p, b);
      if a == p {
        if b == cur {
          ReachEdge(mods, cur, i);
        } else {
          ReachStep(mods, b, cur, i);
        }
      } else {
        FrontPrecedesBack(q, p, a, b);
      }
    }
    forall y | y in q' && y < |mods'| && y != cur && mods'[y].visited
      ensures Reaches(mods', y, cur)
    {
      FrontMembers(q, p, y);
    }
  }

  /** Taking the visited head h off: each import of h is in the log
      already, is h itself, or is behind h on the list and so reaches h. */
  lemma {:induction false} LogReached(mods: seq<ModuleRec>, n: nat, q: seq<nat>, log: seq<nat>)
    requires Scheduled(mods, n, q, log) && q != [] && DepsVisited(mods, q[0])
    ensures DependenciesFirst(mods, log + [q[0]])
  {
    var h := q[0];
    var log' := log + [h];
    DistinctIndex(q, h, 0);
    forall k, j | 0 <= k < |log'| && log'[k] < |mods| && 0 <= j < |Imports(mods, log'[k])|
      ensures Imports(mods, log'[k])[j] as nat in log'[..k] ||
              Reaches(mods, Imports(mods, log'[k])[j] as nat, log'[k])
    {
      assert log'[..k] == log[..k] || k == |log|;
      if k < |log| {
        assert log'[k] == log[k] && log'[..k] == log[..k];
      } else {
        assert log'[k] == h && log'[..k] == log;
        var y := Imports(mods, h)[j] as nat;
        if y == h {
          ReachEdge(mods, h, j);
        } else if y !in log {
          assert y in q;
          assert Precedes(q, h, y);
        }
      }
    }
  }

  // ---------------------------------------------------------------------
  // Progress

  /** Unvisited slots among the first n. */
  function Unvisited(mods: seq<ModuleRec>, n: nat): nat
    requires n <= |mods|
  {
    if n == 0 then 0 else Unvisited(mods, n - 1) + (if mods[n - 1].visited then 0 else 1)
  }

  /** Marking one unvisited slot visited, and nothing else, lowers the count. */
  lemma {:induction false} VisitCounts(mods: seq<ModuleRec>, mods': seq<ModuleRec>, n: nat, x: nat)
    requires n <= |mods| == |mods'| && x < n && !mods[x].visited && mods'[x].visited
    requires forall i :: 0 <= i < |mods| && i != x ==> mods'[i].visited == mods[i].visited
    ensures Unvisited(mods', n) < Unvisited(mods, n)
  {
    if n - 1 == x {
      SameVisitedCounts(mods, mods', n - 1);
    } else {
      VisitCounts(mods, mods', n - 1, x);
    }
  }

  lemma {:induction false} SameVisitedCounts(mods: seq<ModuleRec>, mods': seq<ModuleRec>, n: nat)
    requires n <= |mods| && n <= |mods'|
    requires forall i :: 0 <= i < n ==> mods'[i].visited == mods[i].visited
    ensures Unvisited(mods', n) == Unvisited(mods, n)
  {
    if n > 0 {
      SameVisitedCounts(mods, mods', n - 1);
    }
  }

  // ---------------------------------------------------------------------
  // The steps of the walk

  /** Marking the unvisited head visited starts its visit. */
  lemma {:induction false} VisitStart(mods: seq<ModuleRec>, n: nat, q: seq<nat>, log: seq<nat>)
    requires Scheduled(mods, n, q, log) && q != [] && !mods[q[0]].visited
    ensures Visiting(mods[q[0] := mods[q[0]].(visited := true)], n, q, log, q[0], 0)
    ensures Unvisited(mods[q[0] := mods[q[0]].(visited := true)], n) < Unvisited(mods, n)
  {
    var cur := q[0];
    var mods' := mods[cur := mods[cur].(visited := true)];
    forall k | 0 <= k < |q| ensures q[k] < |mods'| && LinksAt(mods', q, k) {
      assert LinksAt(mods, q, k);
    }
    forall x | 0 <= x < |mods| && x != cur ensures Imports(mods', x) == Imports(mods, x) {
    }
    forall k | 0 <= k < |log| ensures DepsVisited(mods', log[k]) {
      assert DepsVisited(mods, log[k]);
      assert log[k] != cur;
    }
    forall x | x in q && x < |mods'| && x != cur && mods'[x].visited
      ensures DepsAhead(mods', q, x, |Imports(mods', x)|)
    {
      assert DepsAhead(mods, q, x, |Imports(mods, x)|);
    }
    assert LogOk(mods', n, q, log);
    VisitCounts(mods, mods', n, cur);
    VisitStartReached(mods, mods', q, log);
  }

  /** Marking the head visited: nothing is in front of it, and every
      other visited module on the list is behind it and so reaches it. */
  lemma {:induction false} VisitStartReached(mods: seq<ModuleRec>, mods': seq<ModuleRec>,
                                             q: seq<nat>, log: seq<nat>)
    requires AheadReached(mods, q) && DependenciesFirst(mods, log) && Distinct(q) && q != []
    requires q[0] < |mods| && mods' == mods[q[0] := mods[q[0]].(visited := true)]
    ensures AheadReached(mods', q) && CurReached(mods', q, q[0]) && DependenciesFirst(mods', log)
  {
    var cur := q[0];
    forall x | 0 <= x < |mods| ensures Imports(mods', x) == Imports(mods, x) {
    }
    MoreReaches(mods, mods');
    DistinctIndex(q, cur, 0);
    forall x: nat, y: nat | Precedes(q, x, y) && y < |mods'| && mods'[y].visited
      ensures Reaches(mods', y, x)
    {
      assert y != cur;
    }
    forall y | y in q && y < |mods'| && y != cur && mods'[y].visited
      ensures Reaches(mods', y, cur)
    {
      assert Precedes(q, cur, y);
    }
    DependenciesKept(mods, mods', log);
  }

  /** An import that is already visited, or is the current head, needs no
      splice: it is visited or ahead of `cur` already. */
  lemma {:induction false} VisitSkip(mods: seq<ModuleRec>, n: nat, q: seq<nat>, log: seq<nat>,
                                     cur: nat, i: nat)
    requires Visiting(mods, n, q, log, cur, i) && i < |Imports(mods, cur)|
    requires Imports(mods, cur)[i] as int < n
    requires mods[Imports(mods, cur)[i]].visited || Imports(mods, cur)[i] as int == Head(q)
    ensures Visiting(mods, n, q, log, cur, i + 1)
  {
    var p := Imports(mods, cur)[i] as nat;
    if !mods[p].visited {
      DistinctIndex(q, p, 0);
      assert Precedes(q, p, cur);
    }
  }

  /** Splicing an unvisited import p in front puts it ahead of `cur` and
      keeps every order fact already established. */
  lemma {:induction false} VisitSplice(mods: seq<ModuleRec>, n: nat, q: seq<nat>, log: seq<nat>,
                                       cur: nat, i: nat, head: u8)
    requires Visiting(mods, n, q, log, cur, i) && i < |Imports(mods, cur)|
    requires Imports(mods, cur)[i] as int < n && !mods[Imports(mods, cur)[i]].visited
    requires head as int == Head(q) && Imports(mods, cur)[i] != head
    ensures SpliceOk(mods, head, Imports(mods, cur)[i] as nat)
    ensures Visiting(Splice(mods, head, Imports(mods, cur)[i] as nat), n,
                     Front(q, Imports(mods, cur)[i] as nat), log, cur, i + 1)
    ensures Unvisited(Splice(mods, head, Imports(mods, cur)[i] as nat), n) == Unvisited(mods, n)
  {
    var p := Imports(mods, cur)[i] as nat;
    SpliceLinked(mods, n, q, head, p);
    var mods' := Splice(mods, head, p);
    SpliceSame(mods, head, p);
    SameVisitedCounts(mods, mods', n);
    FrontLog(mods, mods', n, q, log, p);
    FrontOrdered(mods, mods', q, p, cur);
    FrontAhead(mods, mods', q, p, cur, i);
    FrontMembers(q, p, cur);
    FrontReached(mods, mods', q, cur, i);
    SameReaches(mods, mods');
    DependenciesKept(mods, mods', log);
  }

  /** The two tables agree on everything but the links. */
  predicate SameFacts(mods: seq<ModuleRec>, mods': seq<ModuleRec>) {
    |mods'| == |mods| &&
    forall x :: 0 <= x < |mods| ==> mods'[x].visited == mods[x].visited && mods'[x].imports == mods[x].imports
  }

  lemma SpliceSame(mods: seq<ModuleRec>, head: u8, p: nat)
    requires SpliceOk(mods, head, p)
    ensures SameFacts(mods, Splice(mods, head, p))
  {
    forall x | 0 <= x < |mods|
      ensures Splice(mods, head, p)[x].visited == mods[x].visited
      ensures Splice(mods, head, p)[x].imports == mods[x].imports
    {
      SpliceAt(mods, head, p, x);
    }
  }

  lemma DequeueSame(mods: seq<ModuleRec>, h: nat)
    requires DequeueOk(mods, h)
    ensures SameFacts(mods, Dequeue(mods, h))
  {
    forall x | 0 <= x < |mods|
      ensures Dequeue(mods, h)[x].visited == mods[x].visited
      ensures Dequeue(mods, h)[x].imports == mods[x].imports
    {
      DequeueAt(mods, h, x);
    }
  }

  lemma {:induction false} FrontLog(mods: seq<ModuleRec>, mods': seq<ModuleRec>, n: nat,
                                    q: seq<nat>, log: seq<nat>, p: nat)
    requires LogOk(mods, n, q, log) && SameFacts(mods, mods') && p < |mods| && !mods[p].visited
    ensures LogOk(mods', n, Front(q, p), log)
  {
    var q' := Front(q, p);
    forall x | x in q ensures x in q' { FrontMembers(q, p, x); }
    forall k | 0 <= k < |log| ensures log[k] !in q' && DepsVisited(mods', log[k]) {
      FrontMembers(q, p, log[k]);
      assert DepsVisited(mods, log[k]);
      assert Imports(mods', log[k]) == Imports(mods, log[k]);
    }
  }

  lemma {:induction false} FrontOrdered(mods: seq<ModuleRec>, mods': seq<ModuleRec>,
                                        q: seq<nat>, p: nat, cur: int)
    requires Ordered(mods, q, cur) && SameFacts(mods, mods') && Distinct(q)
    requires p < |mods| && !mods[p].visited
    ensures Ordered(mods', Front(q, p), cur)
  {
    var q' := Front(q, p);
    forall x | x in q' && x < |mods'| && x != cur && mods'[x].visited
      ensures DepsAhead(mods', q', x, |Imports(mods', x)|)
    {
      FrontMembers(q, p, x);
      assert Imports(mods', x) == Imports(mods, x);
      assert DepsAhead(mods, q, x, |Imports(mods, x)|);
      forall k | 0 <= k < |Imports(mods, x)|
        ensures mods[Imports(mods, x)[k]].visited || Precedes(q', Imports(mods, x)[k] as nat, x)
      {
        FrontPrecedes(q, p, x, Imports(mods, x)[k] as nat);
      }
    }
  }

  lemma {:induction false} FrontAhead(mods: seq<ModuleRec>, mods': seq<ModuleRec>,
                                      q: seq<nat>, p: nat, cur: nat, i: nat)
    requires cur < |mods| && DepsAhead(mods, q, cur, i) && SameFacts(mods, mods') && Distinct(q)
    requires cur in q && i < |Imports(mods, cur)| && Imports(mods, cur)[i] as nat == p
    requires p < |mods| && !mods[p].visited && mods[cur].visited
    ensures DepsAhead(mods', Front(q, p), cur, i + 1)
  {
    var q' := Front(q, p);
    assert Imports(mods', cur) == Imports(mods, cur);
    assert cur != p;
    forall k | 0 <= k < i + 1 && k < |Imports(mods, cur)|
      ensures mods[Imports(mods, cur)[k]].visited || Precedes(q', Imports(mods, cur)[k] as nat, cur)
    {
      FrontPrecedes(q, p, cur, Imports(mods, cur)[k] as nat);
    }
  }

  /** Once every import of `cur` is handled the list is ordered again. */
  lemma {:induction false} VisitEnd(mods: seq<ModuleRec>, n: nat, q: seq<nat>, log: seq<nat>, cur: nat)
    requires cur < |mods| && Visiting(mods, n, q, log, cur, |Imports(mods, cur)|)
    ensures Scheduled(mods, n, q, log)
  {
  }

  /** Taking a visited head off the list: every import of it is visited
      (nothing can be ahead of the head), so it joins the log with the
      facts the log keeps. */
  lemma {:induction false} DequeueStep(mods: seq<ModuleRec>, n: nat, q: seq<nat>, log: seq<nat>)
    requires Scheduled(mods, n, q, log) && q != [] && mods[q[0]].visited
    ensures DequeueOk(mods, q[0]) && mods[q[0]].initNext as int == Head(q[1..])
    ensures DepsVisited(mods, q[0])
    ensures Scheduled(Dequeue(mods, q[0]), n, q[1..], log + [q[0]])
    ensures Unvisited(Dequeue(mods, q[0]), n) == Unvisited(mods, n)
  {
    var h := q[0];
    DequeueLinked(mods, n, q);
    var mods' := Dequeue(mods, h);
    DequeueSame(mods, h);
    SameVisitedCounts(mods, mods', n);
    HeadDepsVisited(mods, q);
    DistinctTail(q);
    TailLog(mods, mods', n, q, log);
    TailOrdered(mods, mods', q);
    LogReached(mods, n, q, log);
    SameReaches(mods, mods');
    DependenciesKept(mods, mods', log + [h]);
    TailReached(mods, mods', q);
  }

  /** The reach facts of the list hold of its tail. */
  lemma {:induction false} TailReached(mods: seq<ModuleRec>, mods': seq<ModuleRec>, q: seq<nat>)
    requires AheadReached(mods, q) && SameFacts(mods, mods') && Distinct(q) && q != []
    ensures AheadReached(mods', q[1..])
  {
    SameReaches(mods, mods');
    forall a: nat, b: nat | Precedes(q[1..], a, b) && b < |mods'| && mods'[b].visited
      ensures Reaches(mods', b, a)
    {
      TailPrecedesBack(q, a, b);
    }
  }

  lemma {:induction false} HeadDepsVisited(mods: seq<ModuleRec>, q: seq<nat>)
    requires Ordered(mods, q, -1) && Distinct(q) && q != [] && q[0] < |mods| && mods[q[0]].visited
    ensures DepsVisited(mods, q[0])
  {
    DistinctIndex(q, q[0], 0);
    assert DepsAhead(mods, q, q[0], |Imports(mods, q[0])|);
  }

  lemma {:induction false} TailLog(mods: seq<ModuleRec>, mods': seq<ModuleRec>, n: nat,
                                   q: seq<nat>, log: seq<nat>)
    requires LogOk(mods, n, q, log) && SameFacts(mods, mods') && Distinct(q) && q != []
    requires q[0] < n && mods[q[0]].visited && DepsVisited(mods, q[0])
    ensures LogOk(mods', n, q[1..], log + [q[0]])
  {
    var h := q[0];
    var t := q[1..];
    var log' := log + [h];
    forall k | 0 <= k < |log'|
      ensures log'[k] < n && log'[k] !in t && mods'[log'[k]].visited && DepsVisited(mods', log'[k])
    {
      var x := log'[k];
      if k < |log| {
        assert x == log[k] && DepsVisited(mods, x);
      } else {
        assert x == h;
        assert DepsVisited(mods, h);
      }
      assert Imports(mods', x) == Imports(mods, x);
    }
    assert Distinct(log');
    forall x | 0 <= x < |mods'| && mods'[x].visited ensures x < n && (x in t || x in log') {
      assert x in q || x in log;
      if x in q && x != h {
        assert x in t;
      }
    }
    assert 0 in t || 0 in log';
  }

  lemma {:induction false} TailOrdered(mods: seq<ModuleRec>, mods': seq<ModuleRec>, q: seq<nat>)
    requires Ordered(mods, q, -1) && SameFacts(mods, mods') && Distinct(q) && q != []
    requires q[0] < |mods| && mods[q[0]].visited
    ensures Ordered(mods', q[1..], -1)
  {
    var t := q[1..];
    forall x | x in t && x < |mods'| && mods'[x].visited
      ensures DepsAhead(mods', t, x, |Imports(mods', x)|)
    {
      assert x != q[0];
      assert Imports(mods', x) == Imports(mods, x);
      assert DepsAhead(mods, q, x, |Imports(mods, x)|);
      forall k | 0 <= k < |Imports(mods, x)|
        ensures mods[Imports(mods, x)[k]].visited || Precedes(t, Imports(mods, x)[k] as nat, x)
      {
        var y := Imports(mods, x)[k] as nat;
        if !mods[y].visited {
          TailPrecedes(q, x, y);
        }
      }
    }
  }

  /** Every import of a module in `log` is in `log` too. */
  predicate ImportsClosed(mods: seq<ModuleRec>, log: seq<nat>) {
    forall k, j :: 0 <= k < |log| && log[k] < |mods| && 0 <= j < |Imports(mods, log[k])| ==>
      Imports(mods, log[k])[j] as nat in log
  }

  /** When the list is empty, the modules taken off include the
      application's and are closed under imports: every module the
      application reaches through imports has been taken off, each exactly
      once. */
  lemma {:induction false} WalkComplete(mods: seq<ModuleRec>, n: nat, log: seq<nat>)
    requires Scheduled(mods, n, [], log)
    ensures 0 in log && Distinct(log) && ImportsClosed(mods, log)
    ensures DependenciesFirst(mods, log)
  {
    forall k, j | 0 <= k < |log| && 0 <= j < |Imports(mods, log[k])|
      ensures Imports(mods, log[k])[j] as nat in log
    {
      assert DepsVisited(mods, log[k]);
    }
  }

  /** A splice changes links only. */
  lemma SpliceRelinks(mods: seq<ModuleRec>, head: u8, p: nat)
    requires SpliceOk(mods, head, p)
    ensures forall x :: 0 <= x < |mods| ==> Relinked(Splice(mods, head, p)[x], mods[x])
  {
    forall x | 0 <= x < |mods|
      ensures Relinked(Splice(mods, head, p)[x], mods[x])
    {
      SpliceAt(mods, head, p, x);
    }
  }

  /** Taking the head off changes links only. */
  lemma DequeueRelinks(mods: seq<ModuleRec>, h: nat)
    requires DequeueOk(mods, h)
    ensures forall x :: 0 <= x < |mods| ==> Relinked(Dequeue(mods, h)[x], mods[x])
  {
    forall x | 0 <= x < |mods|
      ensures Relinked(Dequeue(mods, h)[x], mods[x])
    {
      DequeueAt(mods, h, x);
    }
  }

  /** The visit of the unvisited head of the list (src/mango.c:751-776):
      mark `first` visited, then move each of its imports that is neither
      visited nor already the head to the front of the list; the list
      itself is the links, `q` its ghost reading. The list
      stays scheduled, one more module is visited, and only visited bits
      and links change. */
  method VisitImports(mods: seq<ModuleRec>, n: nat, first: u8, ghost q: seq<nat>, ghost log: seq<nat>)
    returns (mods': seq<ModuleRec>, ghost q': seq<nat>, head: u8)
    requires Scheduled(mods, n, q, log) && q != [] && first as int == q[0] && !mods[q[0]].visited
    requires forall k :: 0 <= k < |Imports(mods, q[0])| ==> Imports(mods, q[0])[k] as int < n
    ensures Scheduled(mods', n, q', log) && q' != [] && head as int == Head(q')
    ensures Unvisited(mods', n) < Unvisited(mods, n)
    ensures |mods'| == |mods| && forall x :: 0 <= x < |mods| ==> Relinked(mods'[x], mods[x])
    ensures mods'[q[0]].visited
  {
    var cur := first as nat;
    VisitStart(mods, n, q, log);
    mods' := mods[cur := mods[cur].(visited := true)];
    q' := q;
    head := cur as u8;
    var ix := Imports(mods', cur);
    for i := 0 to |ix|
      invariant Visiting(mods', n, q', log, cur, i) && head as int == Head(q')
      invariant Imports(mods', cur) == ix == Imports(mods, cur)
      invariant Unvisited(mods', n) < Unvisited(mods, n)
      invariant |mods'| == |mods| && mods'[cur].visited
      invariant forall x :: 0 <= x < |mods| ==> Relinked(mods'[x], mods[x])
    {
      var p := ix[i];
      if !mods'[p].visited && head != p {
        VisitSplice(mods', n, q', log, cur, i, head);
        SpliceRelinks(mods', head, p as nat);
        SpliceAt(mods', head, p as nat, cur);
        mods' := Splice(mods', head, p as nat);
        q' := Front(q', p as nat);
        head := p;
      } else {
        VisitSkip(mods', n, q', log, cur, i);
      }
    }
    VisitEnd(mods', n, q', log, cur);
  }
}
