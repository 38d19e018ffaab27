/** The decompressor's Huffman tables: a 1024-entry table indexed by the next ten bits, and an
    overflow tree, addressed by negative indices, for longer codes.

    Every location of the two arrays stands for a bit string: `look[x]` for the ten bits of `x`, and
    the two halves of a tree node for the node's bit string extended by one bit.  The ghost map
    `node` records the bit string of each allocated tree node. */
module DecodeTable {
  import opened Bits
  import opened Canonical

  const FAST_BITS: nat := 10
  const FAST_SIZE: nat := 1024

  datatype Decoded = Decoded(sym: nat, len: nat)
  datatype Option<T> = None | Some(value: T)

  // ---------- what decoding means, in terms of code words only ----------

  /** `p` is a proper prefix of some code word. */
  ghost predicate Interior(sizes: seq<nat>, p: bits) {
    exists s :: Uses(sizes, s) && |p| < sizes[s] && p <= CodeWord(sizes, s)
  }

  /** The first extension of `a[..10]` within `a` that leaves the code tree without meeting a code word. */
  ghost function FirstExit(sizes: seq<nat>, a: bits, k: nat): Option<Decoded>
    decreases |a| - k
  {
    if k > |a| then None
    else if Interior(sizes, a[..k]) then FirstExit(sizes, a, k + 1)
    else Some(Decoded(0, k))
  }

  /** The result of decoding when exactly the bits `a` are available; `None` asks for more.
      With a complete code only the first case arises.  A block may also carry a code with one
      symbol or none, and then other input decodes to symbol 0 as the tables happen to hold. */
  ghost function Decode(sizes: seq<nat>, a: bits): Option<Decoded> {
    if exists s :: Uses(sizes, s) && CodeWord(sizes, s) <= a then
      var s: nat :| Uses(sizes, s) && CodeWord(sizes, s) <= a;
      Some(Decoded(s, sizes[s]))
    else if |a| > FAST_BITS && Interior(sizes, a[..FAST_BITS]) then FirstExit(sizes, a, FAST_BITS + 1)
    else if |a| >= MAX_BITS then Some(Decoded(0, 0))
    else None
  }

  /** A code word followed by anything decodes to its symbol and is consumed exactly. */
  lemma DecodeCodeWord(sizes: seq<nat>, s: nat, rest: bits)
    requires Valid(sizes) && Uses(sizes, s)
    ensures Decode(sizes, CodeWord(sizes, s) + rest) == Some(Decoded(s, sizes[s]))
  {
    var a := CodeWord(sizes, s) + rest;
    assert CodeWord(sizes, s) <= a;
    forall t: nat | Uses(sizes, t) && CodeWord(sizes, t) <= a
      ensures t == s
    {
      OnePrefix(sizes, s, t, a);
    }
  }

  lemma OnePrefix(sizes: seq<nat>, s: nat, t: nat, a: bits)
    requires Valid(sizes) && Uses(sizes, s) && Uses(sizes, t)
    requires CodeWord(sizes, s) <= a && CodeWord(sizes, t) <= a
    ensures s == t
  {
    if sizes[s] <= sizes[t] {
      assert CodeWord(sizes, s) == a[..sizes[s]] && CodeWord(sizes, t) == a[..sizes[t]];
      PrefixFree(sizes, s, t);
    } else {
      assert CodeWord(sizes, s) == a[..sizes[s]] && CodeWord(sizes, t) == a[..sizes[t]];
      PrefixFree(sizes, t, s);
    }
  }

  /** An answer never depends on bits that were not yet available, and never consumes any. */
  lemma DecodeStable(sizes: seq<nat>, a: bits, b: bits)
    requires Valid(sizes) && Decode(sizes, a).Some?
    ensures Decode(sizes, a + b) == Decode(sizes, a)
    ensures Decode(sizes, a).value.len <= |a|
  {
    if s: nat :| Uses(sizes, s) && CodeWord(sizes, s) <= a {
      forall t: nat | Uses(sizes, t) && CodeWord(sizes, t) <= a + b
        ensures t == s
      {
        assert CodeWord(sizes, s) <= a + b;
        OnePrefix(sizes, s, t, a + b);
      }
      assert CodeWord(sizes, s) <= a + b;
    } else {
      forall t: nat | Uses(sizes, t) && CodeWord(sizes, t) <= a + b
        ensures false
      {
        assert |a| < sizes[t];
        assert (a + b)[..|a|] == a <= CodeWord(sizes, t);
        assert Interior(sizes, a);
        if |a| > FAST_BITS {
          InteriorPrefix(sizes, a, FAST_BITS);
          NoExit(sizes, a, FAST_BITS + 1);
        }
      }
      if |a| > FAST_BITS {
        assert (a + b)[..FAST_BITS] == a[..FAST_BITS];
        if Interior(sizes, a[..FAST_BITS]) {
          FirstExitStable(sizes, a, b, FAST_BITS + 1);
        }
      }
    }
  }

  lemma InteriorPrefix(sizes: seq<nat>, p: bits, k: nat)
    requires Interior(sizes, p) && k <= |p|
    ensures Interior(sizes, p[..k])
  {
    var s :| Uses(sizes, s) && |p| < sizes[s] && p <= CodeWord(sizes, s);
    assert p[..k] <= CodeWord(sizes, s);
  }

  lemma {:induction false} NoExit(sizes: seq<nat>, a: bits, k: nat)
    requires Interior(sizes, a)
    ensures FirstExit(sizes, a, k) == None
    decreases |a| - k
  {
    if k <= |a| {
      InteriorPrefix(sizes, a, k);
      NoExit(sizes, a, k + 1);
    }
  }

  lemma {:induction false} FirstExitStable(sizes: seq<nat>, a: bits, b: bits, k: nat)
    requires FirstExit(sizes, a, k).Some?
    ensures FirstExit(sizes, a + b, k) == FirstExit(sizes, a, k)
    ensures k <= FirstExit(sizes, a, k).value.len <= |a|
    decreases |a| - k
  {
    assert (a + b)[..k] == a[..k];
    if Interior(sizes, a[..k]) {
      FirstExitStable(sizes, a, b, k + 1);
    }
  }

  /** Fifteen bits always suffice. */
  lemma DecodeFull(sizes: seq<nat>, a: bits)
    requires Valid(sizes) && |a| >= MAX_BITS
    ensures Decode(sizes, a).Some?
  {
    if Interior(sizes, a[..FAST_BITS]) {
      ExitByMax(sizes, a, FAST_BITS + 1);
    }
  }

  lemma {:induction false} ExitByMax(sizes: seq<nat>, a: bits, k: nat)
    requires Valid(sizes) && k <= MAX_BITS <= |a|
    ensures FirstExit(sizes, a, k).Some?
    decreases MAX_BITS - k
  {
    if Interior(sizes, a[..k]) {
      ExitByMax(sizes, a, k + 1);
    }
  }

  // ---------- the arrays, location by location ----------

  type Nodes = map<bits, int>

  ghost predicate IsCell(node: Nodes, p: bits) {
    |p| == FAST_BITS || (|p| > FAST_BITS && p[..|p| - 1] in node)
  }

  function CellIndex(t: int, b: bool): int {
    -t - 1 + Bit(b)
  }

  ghost predicate NodeBounds(node: Nodes, next: int, cap: nat) {
    && next == -1 - 2 * |node| && 2 * |node| <= cap
    && (forall p :: p in node ==> next < node[p] < 0 && node[p] % 2 == 1)
    && (forall p, q :: p in node && q in node && node[p] == node[q] ==> p == q)
  }

  ghost function Cell(look: seq<int>, tree: seq<int>, node: Nodes, p: bits): int
    requires IsCell(node, p)
  {
    if |p| == FAST_BITS then
      var x := Val(p);
      if x < |look| then look[x] else 0
    else
      var i := CellIndex(node[p[..|p| - 1]], p[|p| - 1]);
      if 0 <= i < |tree| then tree[i] else 0
  }

  /** Symbol `s` is what the location of `p` should hold. */
  ghost predicate Ends(sizes: seq<nat>, s: nat, p: bits) {
    && Uses(sizes, s)
    && (if |p| == FAST_BITS then sizes[s] <= FAST_BITS && CodeWord(sizes, s) <= p else CodeWord(sizes, s) == p)
  }

  function LeafValue(sizes: seq<nat>, s: nat, p: bits): nat
    requires s < |sizes|
  {
    if |p| == FAST_BITS then sizes[s] * 512 + s else s
  }

  ghost function Leaf(sizes: seq<nat>, done: nat, p: bits): nat {
    if exists s: nat :: s < done && Ends(sizes, s, p) then
      var s: nat :| s < done && Ends(sizes, s, p);
      LeafValue(sizes, s, p)
    else 0
  }

  ghost predicate NodesInterior(node: Nodes, sizes: seq<nat>) {
    forall p :: p in node ==> FAST_BITS <= |p| && Interior(sizes, p) && IsCell(node, p)
  }

  /** Every proper prefix of a finished long code word has its node. */
  ghost predicate PathsBuilt(node: Nodes, sizes: seq<nat>, done: nat) {
    forall s: nat, k: nat :: s < done && Uses(sizes, s) && FAST_BITS <= k < sizes[s] ==> CodeWord(sizes, s)[..k] in node
  }

  ghost predicate CellHolds(look: seq<int>, tree: seq<int>, node: Nodes, sizes: seq<nat>, done: nat, p: bits)
    requires IsCell(node, p)
  {
    Cell(look, tree, node, p) == if p in node then node[p] else Leaf(sizes, done, p)
  }

  ghost predicate CellsHold(look: seq<int>, tree: seq<int>, node: Nodes, sizes: seq<nat>, done: nat) {
    forall p :: IsCell(node, p) ==> CellHolds(look, tree, node, sizes, done, p)
  }

  ghost predicate TailClear(tree: seq<int>, next: int) {
    forall i :: 0 <= i < |tree| && -next - 1 <= i ==> tree[i] == 0
  }

  /** The arrays hold exactly the code words of the symbols below `done` and the tree nodes `node`. */
  ghost predicate Holds(look: seq<int>, tree: seq<int>, node: Nodes, next: int, sizes: seq<nat>, done: nat) {
    && |look| == FAST_SIZE && done <= |sizes|
    && NodeBounds(node, next, |tree|)
    && NodesInterior(node, sizes)
    && PathsBuilt(node, sizes, done)
    && CellsHold(look, tree, node, sizes, done)
    && TailClear(tree, next)
  }

  lemma EndsUnique(sizes: seq<nat>, s: nat, t: nat, p: bits)
    requires Valid(sizes) && Ends(sizes, s, p) && Ends(sizes, t, p)
    ensures s == t
  {
    OnePrefix(sizes, s, t, p);
  }

  lemma LeafIs(sizes: seq<nat>, done: nat, s: nat, p: bits)
    requires Valid(sizes) && s < done && Ends(sizes, s, p)
    ensures Leaf(sizes, done, p) == LeafValue(sizes, s, p)
  {
    forall t: nat | t < done && Ends(sizes, t, p)
      ensures t == s
    {
      EndsUnique(sizes, s, t, p);
    }
  }

  /** Two different locations have different addresses. */
  lemma CellsApart(node: Nodes, next: int, cap: nat, p: bits, q: bits)
    requires NodeBounds(node, next, cap)
    requires |p| > FAST_BITS && |q| > FAST_BITS && IsCell(node, p) && IsCell(node, q)
    requires CellIndex(node[p[..|p| - 1]], p[|p| - 1]) == CellIndex(node[q[..|q| - 1]], q[|q| - 1])
    ensures p == q
  {
    assert node[p[..|p| - 1]] == node[q[..|q| - 1]];
    assert p == p[..|p| - 1] + [p[|p| - 1]];
    assert q == q[..|q| - 1] + [q[|q| - 1]];
  }

  lemma FastApart(p: bits, q: bits)
    requires |p| == |q| && Val(p) == Val(q)
    ensures p == q
  {
    EncVal(p);
    EncVal(q);
  }

  ghost function PutLook(look: seq<int>, p: bits, e: int): seq<int> {
    if |p| == FAST_BITS && Val(p) < |look| then look[Val(p) := e] else look
  }

  ghost function PutTree(tree: seq<int>, node: Nodes, p: bits, e: int): seq<int>
    requires IsCell(node, p)
  {
    if |p| == FAST_BITS then tree
    else
      var i := CellIndex(node[p[..|p| - 1]], p[|p| - 1]);
      if 0 <= i < |tree| then tree[i := e] else tree
  }

  /** Writing the location of `p` changes that location and no other. */
  lemma PutCell(look: seq<int>, tree: seq<int>, node: Nodes, next: int, p: bits, e: int, q: bits)
    requires |look| == FAST_SIZE && NodeBounds(node, next, |tree|)
    requires IsCell(node, p) && IsCell(node, q)
    ensures Cell(PutLook(look, p, e), PutTree(tree, node, p, e), node, q)
            == if p == q then e else Cell(look, tree, node, q)
  {
    Pow2Values();
    ValBound(p);
    ValBound(q);
    if |p| == FAST_BITS && |q| == FAST_BITS {
      if Val(p) == Val(q) {
        FastApart(p, q);
      }
    } else if |p| > FAST_BITS && |q| > FAST_BITS {
      if CellIndex(node[p[..|p| - 1]], p[|p| - 1]) == CellIndex(node[q[..|q| - 1]], q[|q| - 1]) {
        CellsApart(node, next, |tree|, p, q);
      }
    }
  }

  /** Below a location that is not yet a node, no code word ends. */
  lemma NewCellEmpty(node: Nodes, sizes: seq<nat>, done: nat, q: bits)
    requires |q| > FAST_BITS && q[..|q| - 1] !in node
    requires PathsBuilt(node, sizes, done)
    ensures Leaf(sizes, done, q) == 0
  {
  }

  lemma AllocNewCell(look: seq<int>, tree: seq<int>, node: Nodes, next: int, sizes: seq<nat>, done: nat, p: bits,
                     q: bits)
    requires NodeBounds(node, next, |tree|) && PathsBuilt(node, sizes, done) && TailClear(tree, next)
    requires IsCell(node, p) && p !in node && 2 * |node| + 2 <= |tree|
    requires |q| > FAST_BITS && q[..|q| - 1] == p && q !in node
    ensures CellHolds(PutLook(look, p, next), PutTree(tree, node, p, next), node[p := next], sizes, done, q)
  {
    NewCellEmpty(node, sizes, done, q);
    var i := CellIndex(next, q[|q| - 1]);
    assert 0 <= i < |tree| && tree[i] == 0;
    assert PutTree(tree, node, p, next)[i] == 0;
  }

  lemma AllocOldCell(look: seq<int>, tree: seq<int>, node: Nodes, next: int, sizes: seq<nat>, done: nat, p: bits,
                     q: bits)
    requires |look| == FAST_SIZE && NodeBounds(node, next, |tree|)
    requires IsCell(node, p) && p !in node && IsCell(node, q) && CellHolds(look, tree, node, sizes, done, q)
    ensures IsCell(node[p := next], q)
    ensures CellHolds(PutLook(look, p, next), PutTree(tree, node, p, next), node[p := next], sizes, done, q)
  {
    PutCell(look, tree, node, next, p, next, q);
    assert |q| > FAST_BITS ==> q[..|q| - 1] != p;
  }

  lemma AllocBounds(node: Nodes, next: int, cap: nat, p: bits)
    requires NodeBounds(node, next, cap) && p !in node && 2 * |node| + 2 <= cap
    ensures NodeBounds(node[p := next], next - 2, cap)
  {
    var node' := node[p := next];
    OneMoreNode(node, p, next);
    NextIsOdd(|node|, next);
    forall q | q in node'
      ensures next - 2 < node'[q] < 0 && node'[q] % 2 == 1 && (q != p ==> node'[q] != next)
    {
      assert q == p || (q in node && node'[q] == node[q]);
    }
  }

  lemma OneMoreNode(node: Nodes, p: bits, next: int)
    requires p !in node
    ensures |node[p := next]| == |node| + 1
  {
    assert node[p := next].Keys == node.Keys + {p};
  }

  lemma NextIsOdd(n: nat, next: int)
    requires next == -1 - 2 * n
    ensures next % 2 == 1 && next < 0
  {
  }

  /** Addresses in use stay below the clear part of the tree. */
  lemma PutTreeTail(tree: seq<int>, node: Nodes, next: int, p: bits, e: int)
    requires NodeBounds(node, next, |tree|) && IsCell(node, p) && TailClear(tree, next)
    ensures |PutTree(tree, node, p, e)| == |tree|
    ensures TailClear(PutTree(tree, node, p, e), next)
  {
    if |p| > FAST_BITS {
      var t := node[p[..|p| - 1]];
      assert next < t && t % 2 == 1;
      assert CellIndex(t, p[|p| - 1]) < -next - 1;
    }
  }

  lemma AllocNodes(node: Nodes, next: int, sizes: seq<nat>, done: nat, p: bits)
    requires NodesInterior(node, sizes) && PathsBuilt(node, sizes, done)
    requires IsCell(node, p) && Interior(sizes, p) && |p| >= FAST_BITS
    ensures NodesInterior(node[p := next], sizes) && PathsBuilt(node[p := next], sizes, done)
  {
    var node' := node[p := next];
    forall q | q in node'
      ensures FAST_BITS <= |q| && Interior(sizes, q) && IsCell(node', q)
    {
      assert q == p || q in node;
    }
  }

  /** A new tree node for the empty, interior location `p`. */
  lemma AllocHolds(look: seq<int>, tree: seq<int>, node: Nodes, next: int, sizes: seq<nat>, done: nat, p: bits)
    requires Holds(look, tree, node, next, sizes, done)
    requires IsCell(node, p) && p !in node && Interior(sizes, p) && |p| >= FAST_BITS
    requires 2 * |node| + 2 <= |tree|
    ensures Holds(PutLook(look, p, next), PutTree(tree, node, p, next), node[p := next], next - 2, sizes, done)
  {
    var look', tree', node' := PutLook(look, p, next), PutTree(tree, node, p, next), node[p := next];
    forall q | IsCell(node', q)
      ensures CellHolds(look', tree', node', sizes, done, q)
    {
      if IsCell(node, q) {
        AllocOldCell(look, tree, node, next, sizes, done, p, q);
      } else {
        AllocNewCell(look, tree, node, next, sizes, done, p, q);
      }
    }
    AllocBounds(node, next, |tree|, p);
    PutTreeTail(tree, node, next, p, next);
    AllocNodes(node, next, sizes, done, p);
  }

  lemma LeafCell(look: seq<int>, tree: seq<int>, node: Nodes, next: int, sizes: seq<nat>, s: nat, q: bits)
    requires Valid(sizes) && |look| == FAST_SIZE && NodeBounds(node, next, |tree|)
    requires Uses(sizes, s) && sizes[s] > FAST_BITS
    requires NodesInterior(node, sizes)
    requires IsCell(node, CodeWord(sizes, s)) && IsCell(node, q) && CellHolds(look, tree, node, sizes, s, q)
    ensures CellHolds(look, PutTree(tree, node, CodeWord(sizes, s), s), node, sizes, s + 1, q)
  {
    var c := CodeWord(sizes, s);
    PutCell(look, tree, node, next, c, s, q);
    assert PutLook(look, c, s) == look;
    NotInterior(sizes, s);
    if q == c {
      LeafIs(sizes, s + 1, s, c);
    } else {
      LeafStep(sizes, s, q);
    }
  }

  /** The last location of a long code receives the symbol. */
  lemma LeafHolds(look: seq<int>, tree: seq<int>, node: Nodes, next: int, sizes: seq<nat>, s: nat)
    requires Valid(sizes) && Holds(look, tree, node, next, sizes, s)
    requires Uses(sizes, s) && sizes[s] > FAST_BITS
    requires forall k: nat :: FAST_BITS <= k < sizes[s] ==> CodeWord(sizes, s)[..k] in node
    ensures IsCell(node, CodeWord(sizes, s))
    ensures Holds(look, PutTree(tree, node, CodeWord(sizes, s), s), node, next, sizes, s + 1)
  {
    var c := CodeWord(sizes, s);
    assert c[..|c| - 1] in node;
    var tree' := PutTree(tree, node, c, s);
    forall q | IsCell(node, q)
      ensures CellHolds(look, tree', node, sizes, s + 1, q)
    {
      LeafCell(look, tree, node, next, sizes, s, q);
    }
    PutTreeTail(tree, node, next, c, s);
  }

  lemma NotInterior(sizes: seq<nat>, s: nat)
    requires Valid(sizes) && Uses(sizes, s)
    ensures !Interior(sizes, CodeWord(sizes, s))
  {
    if t :| Uses(sizes, t) && sizes[s] < sizes[t] && CodeWord(sizes, s) <= CodeWord(sizes, t) {
      PrefixFree(sizes, s, t);
    }
  }

  /** Where symbol `s` does not end, finishing it changes nothing. */
  lemma LeafStep(sizes: seq<nat>, s: nat, q: bits)
    requires Valid(sizes) && s < |sizes| && !Ends(sizes, s, q)
    ensures Leaf(sizes, s + 1, q) == Leaf(sizes, s, q)
  {
    if t: nat :| t < s + 1 && Ends(sizes, t, q) {
      LeafIs(sizes, s + 1, t, q);
      LeafIs(sizes, s, t, q);
    }
  }

  /** A symbol without a code leaves the tables as they are. */
  lemma SkipHolds(look: seq<int>, tree: seq<int>, node: Nodes, next: int, sizes: seq<nat>, s: nat)
    requires Valid(sizes) && Holds(look, tree, node, next, sizes, s)
    requires s < |sizes| && sizes[s] == 0
    ensures Holds(look, tree, node, next, sizes, s + 1)
  {
    forall q | IsCell(node, q)
      ensures CellHolds(look, tree, node, sizes, s + 1, q)
    {
      LeafStep(sizes, s, q);
    }
  }

  /** A short code fills every fast entry that begins with it. */
  lemma ShortHolds(look: seq<int>, look': seq<int>, tree: seq<int>, node: Nodes, next: int, sizes: seq<nat>, s: nat)
    requires Valid(sizes) && Holds(look, tree, node, next, sizes, s)
    requires Uses(sizes, s) && sizes[s] <= FAST_BITS && |look'| == FAST_SIZE
    requires forall x: nat :: x < FAST_SIZE ==>
      look'[x] == if CodeWord(sizes, s) <= Enc(x, FAST_BITS) then sizes[s] * 512 + s else look[x]
    ensures Holds(look', tree, node, next, sizes, s + 1)
  {
    Pow2Values();
    forall q | IsCell(node, q)
      ensures CellHolds(look', tree, node, sizes, s + 1, q)
    {
      if |q| == FAST_BITS {
        ValBound(q);
        EncVal(q);
      }
      if Ends(sizes, s, q) {
        LeafIs(sizes, s + 1, s, q);
        ShortNotInterior(sizes, s, q);
      } else {
        LeafStep(sizes, s, q);
      }
    }
  }

  lemma ShortNotInterior(sizes: seq<nat>, s: nat, q: bits)
    requires Valid(sizes) && Uses(sizes, s) && CodeWord(sizes, s) <= q
    ensures !Interior(sizes, q)
  {
    if t :| Uses(sizes, t) && |q| < sizes[t] && q <= CodeWord(sizes, t) {
      PrefixFree(sizes, s, t);
    }
  }

  // ---------- the tree never outgrows its array ----------

  /** `c` bit strings of the same length cannot have fewer than `c` different values. */
  lemma {:induction false} CountByValue(set0: set<bits>, len: nat, lo: nat, hi: nat)
    requires lo <= hi
    requires forall p :: p in set0 ==> |p| == len && lo <= MsbVal(p) < hi
    ensures |set0| <= hi - lo
  {
    if p :| p in set0 && MsbVal(p) == hi - 1 {
      forall q | q in set0 && MsbVal(q) == hi - 1
        ensures q == p
      {
        MsbOfVal(p);
        MsbOfVal(q);
      }
      CountByValue(set0 - {p}, len, lo, hi - 1);
    } else if set0 != {} {
      var p :| p in set0;
      CountByValue(set0, len, lo, hi - 1);
    }
  }

  /** Interior strings of length `len` lie in the uncovered part. */
  lemma ValidLength(sizes: seq<nat>, s: nat)
    requires Valid(sizes) && Uses(sizes, s)
    ensures sizes[s] <= MAX_BITS
  {
  }

  lemma WordStart(sizes: seq<nat>, s: nat, p: bits)
    requires Uses(sizes, s) && p <= CodeWord(sizes, s)
    ensures |p| <= sizes[s] && p == Msb(Code(sizes, s), |p| + (sizes[s] - |p|))[..|p|]
  {
    hide Msb, Code;
  }

  lemma InteriorValue(sizes: seq<nat>, p: bits)
    requires Valid(sizes) && Interior(sizes, p)
    ensures |p| < MAX_BITS
    ensures Covered(sizes, |p|) <= MsbVal(p) < Pow2(|p|)
  {
    hide Covered, Code, CodeWord, Msb, MsbVal, Shr, Pow2, Valid, First;
    var s :| Uses(sizes, s) && |p| < sizes[s] && p <= CodeWord(sizes, s);
    var d := sizes[s] - |p|;
    var v := Code(sizes, s);
    ValidLength(sizes, s);
    WordStart(sizes, s, p);
    CodeInRange(sizes, s);
    CodeBound(sizes, s);
    MsbPrefix(v, |p|, d);
    ShrBound(v, |p|, d);
    ShrPastCovered(sizes, v, |p|, d);
    MsbOfVal(p);
    MsbInjective(MsbVal(p), Shr(v, d), |p|);
  }

  /** How many of the symbols below `n` have a code of at most `len` bits. */
  function UsedTo(sizes: seq<nat>, n: nat, len: nat): nat
    requires n <= |sizes|
  {
    if len == 0 then 0 else UsedTo(sizes, n, len - 1) + CountTo(sizes, n, len)
  }

  /** The number of used symbols, as the construction loop sums it. */
  function Used(sizes: seq<nat>): nat {
    UsedTo(sizes, |sizes|, MAX_BITS)
  }

  lemma {:induction false} UsedStep(sizes: seq<nat>, n: nat, len: nat)
    requires n < |sizes|
    ensures UsedTo(sizes, n + 1, len) == UsedTo(sizes, n, len) + (if 1 <= sizes[n] <= len then 1 else 0)
  {
    if len > 0 {
      UsedStep(sizes, n, len - 1);
    }
  }

  lemma {:induction false} UsedBound(sizes: seq<nat>, m: nat, n: nat, len: nat)
    requires m <= n <= |sizes|
    ensures UsedTo(sizes, m, len) <= UsedTo(sizes, n, len) <= UsedTo(sizes, m, len) + n - m
  {
    if m < n {
      UsedBound(sizes, m, n - 1, len);
      UsedStep(sizes, n - 1, len);
    }
  }

  lemma {:induction false} UsedNone(sizes: seq<nat>, len: nat)
    ensures UsedTo(sizes, 0, len) == 0
  {
    if len > 0 {
      UsedNone(sizes, len - 1);
    }
  }

  lemma AtMostOneUsed(sizes: seq<nat>, s: nat, t: nat)
    requires forall i :: 0 <= i < |sizes| ==> sizes[i] <= MAX_BITS
    requires Used(sizes) <= 1 && Uses(sizes, s) && Uses(sizes, t)
    ensures s == t
  {
    if s != t {
      var lo, hi := if s < t then s else t, if s < t then t else s;
      UsedStep(sizes, lo, MAX_BITS);
      UsedStep(sizes, hi, MAX_BITS);
      UsedBound(sizes, lo + 1, hi, MAX_BITS);
      UsedBound(sizes, hi + 1, |sizes|, MAX_BITS);
    }
  }

  lemma {:induction false} FewUsedCovered(sizes: seq<nat>, len: nat)
    requires UsedTo(sizes, |sizes|, len) <= 1
    ensures UsedTo(sizes, |sizes|, len) == 0 ==> Covered(sizes, len) == 0
    ensures len > 0 ==> Covered(sizes, len) <= Pow2(len - 1)
  {
    if len > 0 {
      FewUsedCovered(sizes, len - 1);
    }
  }

  /** The condition under which `tinfl_decompress` builds a table. */
  predicate Buildable(sizes: seq<nat>) {
    && (forall i :: 0 <= i < |sizes| ==> sizes[i] <= MAX_BITS)
    && (Covered(sizes, MAX_BITS) == Pow2(MAX_BITS) || Used(sizes) <= 1)
  }

  lemma BuildableValid(sizes: seq<nat>)
    requires Buildable(sizes)
    ensures Valid(sizes)
  {
    if Used(sizes) <= 1 {
      FewUsedCovered(sizes, MAX_BITS);
    }
  }

  ghost function OfLength(ps: set<bits>, len: nat): set<bits> {
    set p | p in ps && |p| == len
  }

  lemma SplitSet<T>(a: set<T>, b: set<T>)
    requires b <= a
    ensures |a| == |a - b| + |b|
  {
    assert a == (a - b) + b;
  }

  lemma InteriorLevel(sizes: seq<nat>, ps: set<bits>, len: nat)
    requires Valid(sizes) && len < MAX_BITS
    requires forall p :: p in ps ==> |p| == len && Interior(sizes, p)
    ensures |ps| <= Pow2(len) - Covered(sizes, len)
  {
    forall p | p in ps
      ensures Covered(sizes, len) <= MsbVal(p) < Pow2(len)
    {
      InteriorValue(sizes, p);
    }
    CoveredBound(sizes, len);
    CountByValue(ps, len, Covered(sizes, len), Pow2(len));
  }

  /** Free slots at each level, summed from `len` down, telescope against the codes that end there. */
  lemma {:induction false} InteriorCount(sizes: seq<nat>, ps: set<bits>, len: nat)
    requires Valid(sizes) && len <= MAX_BITS
    requires forall p :: p in ps ==> |p| < len && Interior(sizes, p)
    ensures |ps| <= Pow2(len) - 1 - Covered(sizes, len) + UsedTo(sizes, |sizes|, len)
  {
    hide Interior, Covered, UsedTo, Pow2, Valid;
    LevelSums(sizes, len);
    if len == 0 {
      assert forall p :: p !in ps;
      assert ps == {};
    } else {
      var top := OfLength(ps, len - 1);
      InteriorLevel(sizes, top, len - 1);
      InteriorCount(sizes, ps - top, len - 1);
      SplitSet(ps, top);
    }
  }

  lemma LevelSums(sizes: seq<nat>, len: nat)
    ensures len == 0 ==> Pow2(len) == 1 && Covered(sizes, len) == 0 && UsedTo(sizes, |sizes|, len) == 0
    ensures len > 0 ==>
      Pow2(len) == 2 * Pow2(len - 1) && Covered(sizes, len) == 2 * Covered(sizes, len - 1) + Count(sizes, len)
    ensures len > 0 ==> UsedTo(sizes, |sizes|, len) == UsedTo(sizes, |sizes|, len - 1) + Count(sizes, len)
  {
  }

  lemma {:induction false} CountPrefixes(ps: set<bits>, c: bits, lo: nat, hi: nat)
    requires lo <= hi
    requires forall p :: p in ps ==> p <= c && lo <= |p| < hi
    ensures |ps| <= hi - lo
  {
    if p :| p in ps && |p| == hi - 1 {
      assert forall q :: q in ps && |q| == hi - 1 ==> q == c[..hi - 1] == p;
      CountPrefixes(ps - {p}, c, lo, hi - 1);
    } else if ps != {} {
      var p :| p in ps;
      CountPrefixes(ps, c, lo, hi - 1);
    }
  }

  /** Twice the nodes fit in the array: `m_tree_0` has 2 * 288 entries, `m_tree_1` 2 * 32, `m_tree_2` 2 * 19. */
  lemma NodesFit(sizes: seq<nat>, ps: set<bits>, symbols: nat)
    requires Buildable(sizes) && |sizes| <= symbols && 19 <= symbols
    requires forall p :: p in ps ==> FAST_BITS <= |p| && Interior(sizes, p)
    ensures |ps| <= symbols
  {
    BuildableValid(sizes);
    forall p | p in ps
      ensures |p| < MAX_BITS
    {
      InteriorValue(sizes, p);
    }
    if Used(sizes) <= 1 {
      if ps != {} {
        var p :| p in ps;
        var s :| Uses(sizes, s) && |p| < sizes[s] && p <= CodeWord(sizes, s);
        forall q | q in ps
          ensures q <= CodeWord(sizes, s)
        {
          var t :| Uses(sizes, t) && |q| < sizes[t] && q <= CodeWord(sizes, t);
          AtMostOneUsed(sizes, s, t);
        }
        CountPrefixes(ps, CodeWord(sizes, s), FAST_BITS, MAX_BITS);
      }
    } else {
      InteriorCount(sizes, ps, MAX_BITS);
      UsedBound(sizes, 0, |sizes|, MAX_BITS);
      UsedNone(sizes, MAX_BITS);
    }
  }

  // ---------- building the arrays ----------

  /** The bits `k` of a reversed code are the bits of the code word. */
  lemma {:induction false} EncBit(v: nat, n: nat, k: nat)
    requires k < n
    ensures Enc(v, n)[k] == (Shr(v, k) % 2 == 1)
  {
    if k > 0 {
      EncBit(v / 2, n - 1, k - 1);
    }
  }

  /** `while (rev_code < TINFL_FAST_LOOKUP_SIZE) { pLookUp[rev_code] = k; rev_code += (1 << code_size); }` */
  method FillFast(look: array<int>, rev: nat, codeSize: nat, k: int)
    requires look.Length == FAST_SIZE && rev < Pow2(codeSize)
    modifies look
    ensures forall x: nat :: x < FAST_SIZE ==>
      look[x] == if x % Pow2(codeSize) == rev then k else old(look[x])
  {
    hide Hits, Pow2;
    var step := Pow2(codeSize);
    var r := rev;
    HitsFirst(step, rev);
    while r < FAST_SIZE
      invariant Hits(r, step, rev)
      invariant forall x: nat :: x < FAST_SIZE ==> look[x] == if x < r && Hits(x, step, rev) then k else old(look[x])
      decreases FAST_SIZE - r
    {
      look[r] := k;
      HitsNext(r, step, rev);
      r := r + step;
    }
    forall x: nat | x < FAST_SIZE
      ensures look[x] == if x % step == rev then k else old(look[x])
    {
      HitsMeans(x, step, rev);
    }
  }

  predicate Hits(x: nat, step: nat, rev: nat)
    requires step > 0
  {
    x % step == rev
  }

  lemma HitsMeans(x: nat, step: nat, rev: nat)
    requires step > 0
    ensures Hits(x, step, rev) <==> x % step == rev
  {
  }

  lemma HitsFirst(step: nat, rev: nat)
    requires rev < step
    ensures Hits(rev, step, rev) && forall x: nat :: x < rev ==> !Hits(x, step, rev)
  {
    forall x: nat | x <= rev
      ensures x % step == x
    {
      DivModUnique(x, step, 0, x);
    }
  }

  /** One step on is the next hit. */
  lemma HitsNext(r: nat, step: nat, rev: nat)
    requires step > 0 && Hits(r, step, rev)
    ensures Hits(r + step, step, rev) && forall x: nat :: r < x < r + step ==> !Hits(x, step, rev)
  {
    var q := r / step;
    assert r == q * step + rev;
    assert (q + 1) * step == q * step + step;
    DivModUnique(r + step, step, q + 1, rev);
    forall x: nat | r < x < r + step
      ensures !Hits(x, step, rev)
    {
      if x - r < step - rev {
        DivModUnique(x, step, q, rev + (x - r));
      } else {
        DivModUnique(x, step, q + 1, rev + (x - r) - step);
      }
    }
  }

  lemma EncInjective(a: nat, b: nat, n: nat)
    requires a < Pow2(n) && b < Pow2(n) && Enc(a, n) == Enc(b, n)
    ensures a == b
  {
    ValEnc(a, n);
    ValEnc(b, n);
  }

  lemma PrefixIsRemainder(rev: nat, n: nat, x: nat, y: nat, m: nat)
    requires n <= m && rev < Pow2(n) && y == x % Pow2(n)
    ensures Enc(rev, n) <= Enc(x, m) <==> y == rev
  {
    EncSplit(x, n, m - n);
    EncMod(x, n);
    var a, b, c := Enc(rev, n), Enc(y, n), Enc(Shr(x, n), m - n);
    assert Enc(x, m) == b + c && |a| == |b|;
    if a <= b + c {
      assert a == (b + c)[..|a|] == b;
      EncInjective(rev, y, n);
    }
  }

  /** The location of a proper prefix of symbol `s`'s code word holds a node, or nothing yet. */
  lemma PrefixCell(look: seq<int>, tree: seq<int>, node: Nodes, next: int, sizes: seq<nat>, s: nat, k: nat)
    requires Valid(sizes) && Holds(look, tree, node, next, sizes, s)
    requires Uses(sizes, s) && FAST_BITS <= k < sizes[s] && IsCell(node, CodeWord(sizes, s)[..k])
    ensures var q := CodeWord(sizes, s)[..k];
      && Interior(sizes, q)
      && Cell(look, tree, node, q) == (if q in node then node[q] else 0)
      && (q in node ==> node[q] < 0)
  {
    var q := CodeWord(sizes, s)[..k];
    assert CellHolds(look, tree, node, sizes, s, q);
    if q !in node {
      if t: nat :| t < s && Ends(sizes, t, q) {
        assert CodeWord(sizes, t) <= CodeWord(sizes, s);
        PrefixFree(sizes, t, s);
        assert false;
      }
    }
  }

  lemma FitsOneMore(sizes: seq<nat>, node: Nodes, p: bits, symbols: nat)
    requires Buildable(sizes) && |sizes| <= symbols && 19 <= symbols
    requires NodesInterior(node, sizes) && p !in node && Interior(sizes, p) && FAST_BITS <= |p|
    ensures 2 * |node| + 2 <= 2 * symbols
  {
    NodesFit(sizes, node.Keys + {p}, symbols);
    assert |node.Keys + {p}| == |node| + 1;
  }

  /** Descend into the location of a proper prefix of a code word, allocating its tree node when the
      location is empty: the new state of the arrays, of the node map and of `tree_next`. */
  lemma Descend(look: seq<int>, tree: seq<int>, node: Nodes, next: int, sizes: seq<nat>, s: nat, k: nat)
    returns (node': Nodes)
    requires Buildable(sizes) && Valid(sizes) && Holds(look, tree, node, next, sizes, s)
    requires Uses(sizes, s) && FAST_BITS <= k < sizes[s] && IsCell(node, CodeWord(sizes, s)[..k])
    requires |tree| % 2 == 0 && |sizes| <= |tree| / 2 && 19 <= |tree| / 2
    ensures CodeWord(sizes, s)[..k] in node'
    ensures forall p :: p in node ==> p in node'
    ensures Cell(look, tree, node, CodeWord(sizes, s)[..k]) != 0 ==>
      node' == node && node[CodeWord(sizes, s)[..k]] == Cell(look, tree, node, CodeWord(sizes, s)[..k])
    ensures Cell(look, tree, node, CodeWord(sizes, s)[..k]) == 0 ==>
      && node'[CodeWord(sizes, s)[..k]] == next
      && Holds(PutLook(look, CodeWord(sizes, s)[..k], next), PutTree(tree, node, CodeWord(sizes, s)[..k], next), node',
        next - 2, sizes, s)
  {
    var q := CodeWord(sizes, s)[..k];
    PrefixCell(look, tree, node, next, sizes, s, k);
    if q in node {
      node' := node;
    } else {
      FitsOneMore(sizes, node, q, |tree| / 2);
      AllocHolds(look, tree, node, next, sizes, s, q);
      node' := node[q := next];
    }
  }

  /** `if (0 == (cur = a[i])) { a[i] = tree_next; cur = tree_next; tree_next -= 2; }` */
  method Enter(a: array<int>, i: int, treeNext: int) returns (cur: int, next: int)
    requires 0 <= i < a.Length
    modifies a
    ensures old(a[i]) != 0 ==> a[..] == old(a[..]) && cur == old(a[i]) && next == treeNext
    ensures old(a[i]) == 0 ==> a[..] == old(a[..])[i := treeNext] && cur == treeNext && next == treeNext - 2
  {
    cur, next := a[i], treeNext;
    if cur == 0 {
      a[i] := treeNext;
      cur := treeNext;
      next := treeNext - 2;
    }
  }

  /** One bit further down: from the node of `k` bits of the code word to the node of `k + 1` bits. */
  method InsertStep(look: array<int>, tree: array<int>, at: int, treeNext: int, sizes: seq<nat>, sym: nat,
                    ghost node: Nodes, ghost k: nat)
    returns (cur: int, next: int, ghost node': Nodes)
    requires look != tree && tree.Length % 2 == 0 && |sizes| <= tree.Length / 2 && 19 <= tree.Length / 2
    requires Buildable(sizes) && Valid(sizes) && Uses(sizes, sym) && FAST_BITS <= k < sizes[sym] - 1
    requires Holds(look[..], tree[..], node, treeNext, sizes, sym)
    requires CodeWord(sizes, sym)[..k] in node
    requires -at - 1 == CellIndex(node[CodeWord(sizes, sym)[..k]], CodeWord(sizes, sym)[k])
    modifies tree
    ensures Holds(look[..], tree[..], node', next, sizes, sym)
    ensures CodeWord(sizes, sym)[..k + 1] in node' && node'[CodeWord(sizes, sym)[..k + 1]] == cur
    ensures forall p :: p in node ==> p in node'
  {
    hide Holds, Buildable, Valid, CodeWord;
    HoldsBounds(look[..], tree[..], node, treeNext, sizes, sym);
    ghost var q := CodeWord(sizes, sym)[..k + 1];
    assert q[..k] == CodeWord(sizes, sym)[..k];
    node' := Descend(look[..], tree[..], node, treeNext, sizes, sym, k + 1);
    CellInTree(node, treeNext, tree.Length, q);
    cur, next := Enter(tree, -at - 1, treeNext);
  }

  /** Insertion of a code of more than ten bits (src/external/miniz.h:4516-4532). */
  method InsertLong(look: array<int>, tree: array<int>, treeNext: int, rev: nat, sizes: seq<nat>, sym: nat,
                    ghost node: Nodes)
    returns (next: int, ghost node': Nodes)
    requires look != tree && tree.Length % 2 == 0 && |sizes| <= tree.Length / 2 && 19 <= tree.Length / 2
    requires Buildable(sizes) && Valid(sizes) && Uses(sizes, sym) && sizes[sym] > FAST_BITS
    requires Holds(look[..], tree[..], node, treeNext, sizes, sym)
    requires rev < Pow2(sizes[sym]) && Enc(rev, sizes[sym]) == CodeWord(sizes, sym)
    modifies look, tree
    ensures Holds(look[..], tree[..], node', next, sizes, sym + 1)
  {
    hide Holds, Buildable, Valid, CodeWord, NodeBounds, Shr, Enc, Pow2;
    var codeSize := sizes[sym];
    ghost var c := CodeWord(sizes, sym);
    HoldsBounds(look[..], tree[..], node, treeNext, sizes, sym);
    FastIndex(rev, codeSize);
    node' := Descend(look[..], tree[..], node, treeNext, sizes, sym, FAST_BITS);
    var cur;
    cur, next := Enter(look, rev % FAST_SIZE, treeNext);
    var r := Shr(rev, FAST_BITS - 1);
    var j := codeSize;
    while j > FAST_BITS + 1
      invariant FAST_BITS + 1 <= j <= codeSize
      invariant Holds(look[..], tree[..], node', next, sizes, sym)
      invariant forall k :: FAST_BITS <= k <= FAST_BITS + codeSize - j ==> c[..k] in node'
      invariant cur == node'[c[..FAST_BITS + codeSize - j]]
      invariant r == Shr(rev, FAST_BITS - 1 + codeSize - j)
    {
      ghost var k := FAST_BITS + codeSize - j;
      ShrStep(rev, k - 1);
      EncBit(rev, codeSize, k);
      r := r / 2;
      cur := cur - r % 2;
      cur, next, node' := InsertStep(look, tree, cur, next, sizes, sym, node', k);
      j := j - 1;
    }
    ghost var k := codeSize - 1;
    ShrStep(rev, k - 1);
    EncBit(rev, codeSize, k);
    r := r / 2;
    cur := cur - r % 2;
    HoldsBounds(look[..], tree[..], node', next, sizes, sym);
    LeafHolds(look[..], tree[..], node', next, sizes, sym);
    CellInTree(node', next, tree.Length, c);
    tree[-cur - 1] := sym;
  }

  lemma HoldsBounds(look: seq<int>, tree: seq<int>, node: Nodes, next: int, sizes: seq<nat>, done: nat)
    requires Holds(look, tree, node, next, sizes, done)
    ensures |look| == FAST_SIZE && done <= |sizes| && NodeBounds(node, next, |tree|)
  {
  }

  lemma CellInTree(node: Nodes, next: int, cap: nat, p: bits)
    requires NodeBounds(node, next, cap) && IsCell(node, p) && |p| > FAST_BITS
    ensures 0 <= CellIndex(node[p[..|p| - 1]], p[|p| - 1]) < cap
  {
  }

  lemma {:induction false} ShrStep(v: nat, k: nat)
    ensures Shr(v, k + 1) == Shr(v, k) / 2
  {
    if k > 0 {
      ShrStep(v / 2, k - 1);
    }
  }

  lemma FastIndex(rev: nat, n: nat)
    requires FAST_BITS <= n
    ensures rev % FAST_SIZE == Val(Enc(rev, n)[..FAST_BITS])
  {
    Pow2Values();
    EncSplit(rev, FAST_BITS, n - FAST_BITS);
    assert Enc(rev, n)[..FAST_BITS] == Enc(rev, FAST_BITS);
    ValEncMod(rev, FAST_BITS);
  }

  // ---------- the finished tables ----------

  /** The arrays are the tables of the code with these sizes. */
  ghost predicate Tables(look: seq<int>, tree: seq<int>, sizes: seq<nat>) {
    && Buildable(sizes) && |sizes| <= 512
    && exists node, next :: Holds(look, tree, node, next, sizes, |sizes|)
  }

  lemma ClearHolds(look: seq<int>, tree: seq<int>, sizes: seq<nat>)
    requires |look| == FAST_SIZE && (forall i :: 0 <= i < |look| ==> look[i] == 0)
    requires forall i :: 0 <= i < |tree| ==> tree[i] == 0
    ensures Holds(look, tree, map[], -1, sizes, 0)
  {
  }

  /** `next_code` and the sums that decide whether the sizes form a code. */
  method TotalCodes(sizes: seq<nat>) returns (nextCode: array<nat>, total: nat, usedSyms: nat)
    requires forall i :: 0 <= i < |sizes| ==> sizes[i] <= MAX_BITS
    ensures fresh(nextCode) && nextCode.Length == 17
    ensures forall l :: 1 <= l <= MAX_BITS ==> nextCode[l] == First(sizes, l)
    ensures total == 2 * Covered(sizes, MAX_BITS) && usedSyms == Used(sizes)
  {
    var totalSyms := CountSizes(sizes);
    nextCode := new nat[17];
    nextCode[0], nextCode[1] := 0, 0;
    total, usedSyms := 0, 0;
    var i := 1;
    while i <= 15
      invariant 1 <= i <= 16
      invariant forall l :: 0 <= l <= MAX_BITS ==> totalSyms[l] == Count(sizes, l)
      invariant total == 2 * Covered(sizes, i - 1) && usedSyms == UsedTo(sizes, |sizes|, i - 1)
      invariant forall l :: 1 <= l <= i ==> nextCode[l] == First(sizes, l)
    {
      usedSyms := usedSyms + totalSyms[i];
      total := (total + totalSyms[i]) * 2;
      nextCode[i + 1] := total;
      i := i + 1;
    }
  }

  /** Insertion of one symbol whose reversed code is `rev`. */
  method Insert(look: array<int>, tree: array<int>, treeNext: int, rev: nat, sizes: seq<nat>, sym: nat,
                ghost node: Nodes)
    returns (next: int, ghost node': Nodes)
    requires look != tree && tree.Length % 2 == 0 && |sizes| <= tree.Length / 2 && 19 <= tree.Length / 2
    requires Buildable(sizes) && Valid(sizes) && Uses(sizes, sym)
    requires Holds(look[..], tree[..], node, treeNext, sizes, sym)
    requires rev < Pow2(sizes[sym]) && Enc(rev, sizes[sym]) == CodeWord(sizes, sym)
    modifies look, tree
    ensures Holds(look[..], tree[..], node', next, sizes, sym + 1)
  {
    hide Holds, Buildable, Valid, CodeWord;
    HoldsBounds(look[..], tree[..], node, treeNext, sizes, sym);
    if sizes[sym] <= FAST_BITS {
      ghost var was := look[..];
      FillFast(look, rev, sizes[sym], sizes[sym] * 512 + sym);
      forall x: nat | x < FAST_SIZE
        ensures look[..][x] == if CodeWord(sizes, sym) <= Enc(x, FAST_BITS) then sizes[sym] * 512 + sym else was[x]
      {
        PrefixIsRemainder(rev, sizes[sym], x, x % Pow2(sizes[sym]), FAST_BITS);
      }
      ShortHolds(was, look[..], tree[..], node, treeNext, sizes, sym);
      next, node' := treeNext, node;
    } else {
      next, node' := InsertLong(look, tree, treeNext, rev, sizes, sym, node);
    }
  }

  /** The insertion loop over the symbols, in order, starting from cleared arrays. */
  method InsertAll(sizes: seq<nat>, look: array<int>, tree: array<int>, nextCode: array<nat>)
    requires Buildable(sizes) && Valid(sizes) && nextCode.Length == 17
    requires forall l :: 1 <= l <= MAX_BITS ==> nextCode[l] == First(sizes, l)
    requires look != tree && look.Length == FAST_SIZE
    requires tree.Length % 2 == 0 && |sizes| <= tree.Length / 2 && 19 <= tree.Length / 2 <= 288
    requires Holds(look[..], tree[..], map[], -1, sizes, 0)
    modifies look, tree, nextCode
    ensures Tables(look[..], tree[..], sizes)
  {
    hide Holds, Buildable, Valid, First, CodeWord;
    ghost var node: Nodes := map[];
    var treeNext, symIndex := -1, 0;
    while symIndex < |sizes|
      invariant 0 <= symIndex <= |sizes|
      invariant Holds(look[..], tree[..], node, treeNext, sizes, symIndex)
      invariant forall l :: 1 <= l <= MAX_BITS ==> nextCode[l] == First(sizes, l) + CountTo(sizes, symIndex, l)
    {
      var codeSize := sizes[symIndex];
      ValidSize(sizes, symIndex);
      if codeSize == 0 {
        SkipHolds(look[..], tree[..], node, treeNext, sizes, symIndex);
      } else {
        var curCode := nextCode[codeSize];
        assert curCode == Code(sizes, symIndex);
        nextCode[codeSize] := curCode + 1;
        CodeBound(sizes, symIndex);
        var rev := ReverseBits(curCode, codeSize);
        assert Enc(rev, codeSize) == CodeWord(sizes, symIndex) by { CodeWordDef(sizes, symIndex); }
        treeNext, node := Insert(look, tree, treeNext, rev, sizes, symIndex, node);
      }
      symIndex := symIndex + 1;
    }
  }

  lemma ValidSize(sizes: seq<nat>, s: nat)
    requires Valid(sizes) && s < |sizes|
    ensures sizes[s] <= MAX_BITS
  {
  }

  lemma CodeWordDef(sizes: seq<nat>, s: nat)
    requires Uses(sizes, s)
    ensures CodeWord(sizes, s) == Msb(Code(sizes, s), sizes[s])
  {
  }

  /** The table construction of `tinfl_decompress` (src/external/miniz.h:4477-4534). */
  method BuildTable(sizes: seq<nat>, look: array<int>, tree: array<int>) returns (ok: bool)
    requires forall i :: 0 <= i < |sizes| ==> sizes[i] <= MAX_BITS
    requires look != tree && look.Length == FAST_SIZE
    requires tree.Length % 2 == 0 && |sizes| <= tree.Length / 2 && 19 <= tree.Length / 2 <= 288
    modifies look, tree
    ensures ok == Buildable(sizes)
    ensures ok ==> Tables(look[..], tree[..], sizes)
  {
    hide Holds, Valid, Covered, Tables, First, UsedTo;
    forall i | 0 <= i < look.Length { look[i] := 0; }
    forall i | 0 <= i < tree.Length { tree[i] := 0; }
    ClearHolds(look[..], tree[..], sizes);
    var nextCode, total, usedSyms := TotalCodes(sizes);
    assert Pow2(MAX_BITS) == 32768 by { Pow2Values(); }
    if total != 65536 && usedSyms > 1 {
      return false;
    }
    BuildableValid(sizes);
    InsertAll(sizes, look, tree, nextCode);
    ok := true;
  }

  // ---------- looking a symbol up ----------

  lemma NodeIffInterior(look: seq<int>, tree: seq<int>, node: Nodes, next: int, sizes: seq<nat>, p: bits)
    requires Holds(look, tree, node, next, sizes, |sizes|) && |p| >= FAST_BITS
    ensures p in node <==> Interior(sizes, p)
  {
    if s :| Uses(sizes, s) && |p| < sizes[s] && p <= CodeWord(sizes, s) {
      assert CodeWord(sizes, s)[..|p|] == p;
    }
  }

  /** What the location of `p` tells about the code. */
  lemma CellMeaning(look: seq<int>, tree: seq<int>, node: Nodes, next: int, sizes: seq<nat>, p: bits)
    requires Valid(sizes) && Holds(look, tree, node, next, sizes, |sizes|) && IsCell(node, p)
    ensures Cell(look, tree, node, p) < 0 ==>
      p in node && node[p] == Cell(look, tree, node, p) && Interior(sizes, p)
    ensures Cell(look, tree, node, p) >= 0 ==> !Interior(sizes, p)
    ensures Cell(look, tree, node, p) >= 0 ==>
      || (Cell(look, tree, node, p) == 0 && forall s: nat :: !Ends(sizes, s, p))
      || (exists s: nat :: Ends(sizes, s, p) && Cell(look, tree, node, p) == LeafValue(sizes, s, p))
  {
    assert CellHolds(look, tree, node, sizes, |sizes|, p);
    NodeIffInterior(look, tree, node, next, sizes, p);
    if s: nat :| Ends(sizes, s, p) {
      LeafIs(sizes, |sizes|, s, p);
    }
  }

  /** A full reservoir: the available bits, with zeros above them. */
  function Padded(a: bits, n: nat): (w: bits)
    ensures |w| == |a| + n && a <= w
    decreases n
  {
    if n == 0 then a else Padded(a + [false], n - 1)
  }

  lemma {:induction false} PaddedVal(a: bits, n: nat)
    ensures Val(Padded(a, n)) == Val(a)
    decreases n
  {
    if n > 0 {
      PaddedVal(a + [false], n - 1);
      ValConcat(a, [false]);
      assert Val([false]) == 0;
    }
  }

  lemma {:induction false} ValBit(w: bits, k: nat)
    requires k < |w|
    ensures Shr(Val(w), k) % 2 == Bit(w[k])
  {
    hide Val, Shr, Bit;
    HalfVal(w);
    ShrHalves(Val(w), k);
    if k > 0 {
      ValBit(w[1..], k - 1);
    }
  }

  lemma HalfVal(w: bits)
    requires |w| > 0
    ensures Val(w) / 2 == Val(w[1..]) && Val(w) % 2 == Bit(w[0])
  {
    var t := Val(w[1..]);
    assert Val(w) == Bit(w[0]) + 2 * t;
  }

  lemma ShrHalves(v: nat, k: nat)
    ensures Shr(v, 0) == v && (k > 0 ==> Shr(v, k) == Shr(v / 2, k - 1))
  {
  }

  lemma LowTen(w: bits)
    requires |w| >= FAST_BITS
    ensures Val(w) % FAST_SIZE == Val(w[..FAST_BITS])
  {
    Pow2Values();
    ValSplit(w, FAST_BITS);
  }

  /** All proper prefixes of `w[..k]` from ten bits on are interior: the walk has come this far. */
  ghost predicate Walked(sizes: seq<nat>, w: bits, k: nat) {
    k <= |w| && forall j :: FAST_BITS <= j < k ==> Interior(sizes, w[..j])
  }

  /** Reading the table for `w[..k]` after a walk: either go on, or the answer is at hand. */
  lemma WalkStep(look: seq<int>, tree: seq<int>, node: Nodes, next: int, sizes: seq<nat>, w: bits, k: nat)
    requires Valid(sizes) && Holds(look, tree, node, next, sizes, |sizes|)
    requires FAST_BITS <= k && Walked(sizes, w, k)
    ensures IsCell(node, w[..k])
    ensures Cell(look, tree, node, w[..k]) < 0 ==> Walked(sizes, w, k + 1) || k == |w|
    ensures Cell(look, tree, node, w[..k]) < 0 ==> Interior(sizes, w[..k]) && k < MAX_BITS
    ensures Cell(look, tree, node, w[..k]) >= 0 ==> !Interior(sizes, w[..k])
  {
    hide Holds, Valid, CodeWord, Cell, Interior, Leaf;
    var p := w[..k];
    if k > FAST_BITS {
      assert p[..k - 1] == w[..k - 1];
      NodeIffInterior(look, tree, node, next, sizes, w[..k - 1]);
    }
    CellMeaning(look, tree, node, next, sizes, p);
    if Cell(look, tree, node, p) < 0 {
      InteriorValue(sizes, p);
    }
  }

  /** A code word at the start of `w` has been passed, ends here, or goes on. */
  lemma CodeWordSeen(sizes: seq<nat>, s: nat, w: bits, k: nat)
    requires Valid(sizes) && Uses(sizes, s) && CodeWord(sizes, s) <= w && FAST_BITS <= k <= |w|
    ensures !Walked(sizes, w, k) || Ends(sizes, s, w[..k]) || Interior(sizes, w[..k])
  {
    hide Valid, Code;
    var n := sizes[s];
    if n > k {
      assert w[..k] <= CodeWord(sizes, s);
    } else if k == FAST_BITS || n == k {
      assert CodeWord(sizes, s) == w[..n] <= w[..k];
    } else {
      var j := if n < FAST_BITS then FAST_BITS else n;
      assert CodeWord(sizes, s) == w[..n] <= w[..j];
      ShortNotInterior(sizes, s, w[..j]);
    }
  }

  /** A fast entry that is not negative settles the input. */
  lemma FastAnswer(look: seq<int>, tree: seq<int>, node: Nodes, next: int, sizes: seq<nat>, w: bits)
    requires Valid(sizes) && |sizes| <= 512 && Holds(look, tree, node, next, sizes, |sizes|)
    requires |w| >= MAX_BITS && Cell(look, tree, node, w[..FAST_BITS]) >= 0
    ensures var t := Cell(look, tree, node, w[..FAST_BITS]);
      Decode(sizes, w) == Some(Decoded(t % 512, t / 512))
  {
    hide Holds, Valid, Cell, Leaf, Code;
    var p := w[..FAST_BITS];
    CellMeaning(look, tree, node, next, sizes, p);
    if s: nat :| Ends(sizes, s, p) && Cell(look, tree, node, p) == LeafValue(sizes, s, p) {
      assert w == CodeWord(sizes, s) + w[sizes[s]..];
      DecodeCodeWord(sizes, s, w[sizes[s]..]);
    } else {
      forall s: nat | Uses(sizes, s) && CodeWord(sizes, s) <= w
        ensures false
      {
        CodeWordSeen(sizes, s, w, FAST_BITS);
      }
    }
  }

  /** So does the first tree entry that is not negative. */
  lemma TreeAnswer(look: seq<int>, tree: seq<int>, node: Nodes, next: int, sizes: seq<nat>, w: bits, k: nat)
    requires Valid(sizes) && Holds(look, tree, node, next, sizes, |sizes|)
    requires FAST_BITS < k <= |w| && Walked(sizes, w, k) && IsCell(node, w[..k])
    requires Cell(look, tree, node, w[..k]) >= 0
    ensures Decode(sizes, w) == Some(Decoded(Cell(look, tree, node, w[..k]), k))
  {
    hide Holds, Valid, Cell, Leaf, Code;
    var p := w[..k];
    CellMeaning(look, tree, node, next, sizes, p);
    if s: nat :| Ends(sizes, s, p) && Cell(look, tree, node, p) == LeafValue(sizes, s, p) {
      assert w == CodeWord(sizes, s) + w[k..];
      DecodeCodeWord(sizes, s, w[k..]);
    } else {
      forall s: nat | Uses(sizes, s) && CodeWord(sizes, s) <= w
        ensures false
      {
        CodeWordSeen(sizes, s, w, k);
      }
      ExitAt(sizes, w, FAST_BITS + 1, k);
    }
  }

  lemma {:induction false} ExitAt(sizes: seq<nat>, w: bits, j: nat, k: nat)
    requires FAST_BITS < j <= k <= |w| && Walked(sizes, w, k) && !Interior(sizes, w[..k])
    ensures FirstExit(sizes, w, j) == Some(Decoded(0, k))
    decreases k - j
  {
    hide Interior;
    if j < k {
      ExitAt(sizes, w, j + 1, k);
    }
  }

  /** The lookup of `TINFL_HUFF_DECODE` (src/external/miniz.h:4300-4307), on a reservoir holding the
      bits `a` with zeros above them. */
  method HuffLookup(look: array<int>, tree: array<int>, ghost sizes: seq<nat>, bitBuf: nat, ghost a: bits)
    returns (sym: nat, codeLen: nat)
    requires Tables(look[..], tree[..], sizes)
    requires bitBuf == Val(a) && Decode(sizes, a).Some?
    ensures Decode(sizes, a) == Some(Decoded(sym, codeLen))
  {
    hide Holds, Decode, Interior, Valid, Padded, Buildable, Cell, Shr, Val, Pow2;
    BuildableValid(sizes);
    ghost var node, next :| Holds(look[..], tree[..], node, next, sizes, |sizes|);
    HoldsBounds(look[..], tree[..], node, next, sizes, |sizes|);
    ghost var w := Padded(a, MAX_BITS);
    PaddedVal(a, MAX_BITS);
    assert w == a + w[|a|..];
    DecodeStable(sizes, a, w[|a|..]);
    LowTen(w);
    WalkStep(look[..], tree[..], node, next, sizes, w, FAST_BITS);
    FastCell(look[..], tree[..], node, w[..FAST_BITS]);
    var temp := look[bitBuf % FAST_SIZE];
    if temp >= 0 {
      FastAnswer(look[..], tree[..], node, next, sizes, w);
      codeLen := temp / 512;
      sym := temp % 512;
    } else {
      codeLen := FAST_BITS;
      while temp < 0
        invariant FAST_BITS <= codeLen <= MAX_BITS
        invariant Walked(sizes, w, codeLen) && IsCell(node, w[..codeLen])
        invariant temp == Cell(look[..], tree[..], node, w[..codeLen])
        invariant temp >= 0 ==> codeLen > FAST_BITS
        decreases MAX_BITS - codeLen, temp < 0
      {
        WalkStep(look[..], tree[..], node, next, sizes, w, codeLen);
        TreeCell(look[..], tree[..], node, next, sizes, w, codeLen);
        ValBit(w, codeLen);
        temp := tree[-temp - 1 + Shr(bitBuf, codeLen) % 2];
        codeLen := codeLen + 1;
      }
      TreeAnswer(look[..], tree[..], node, next, sizes, w, codeLen);
      sym := temp;
    }
  }

  lemma FastCell(look: seq<int>, tree: seq<int>, node: Nodes, p: bits)
    requires |p| == FAST_BITS && |look| == FAST_SIZE
    ensures Val(p) < FAST_SIZE && Cell(look, tree, node, p) == look[Val(p)]
  {
    Pow2Values();
    ValBound(p);
  }

  /** The address of the next tree entry. */
  lemma TreeCell(look: seq<int>, tree: seq<int>, node: Nodes, next: int, sizes: seq<nat>, w: bits, k: nat)
    requires Valid(sizes) && Holds(look, tree, node, next, sizes, |sizes|)
    requires FAST_BITS <= k < |w| && IsCell(node, w[..k]) && Cell(look, tree, node, w[..k]) < 0
    ensures IsCell(node, w[..k + 1])
    ensures var i := -Cell(look, tree, node, w[..k]) - 1 + Bit(w[k]);
      0 <= i < |tree| && tree[i] == Cell(look, tree, node, w[..k + 1])
  {
    hide Holds, Valid, Interior;
    HoldsBounds(look, tree, node, next, sizes, |sizes|);
    CellMeaning(look, tree, node, next, sizes, w[..k]);
    assert w[..k + 1][..k] == w[..k];
  }

  /** An answer from fewer than fifteen bits consumes at least one of them. */
  lemma EarlyAnswer(sizes: seq<nat>, a: bits)
    requires Valid(sizes) && |a| < MAX_BITS && Decode(sizes, a).Some?
    ensures Decode(sizes, a).value.len > 0
    ensures Interior(sizes, a[..if |a| < FAST_BITS then |a| else FAST_BITS]) ==> Decode(sizes, a).value.len > FAST_BITS
  {
    hide Valid, Code;
    var n := if |a| < FAST_BITS then |a| else FAST_BITS;
    if s: nat :| Uses(sizes, s) && CodeWord(sizes, s) <= a {
      assert a == CodeWord(sizes, s) + a[sizes[s]..];
      DecodeCodeWord(sizes, s, a[sizes[s]..]);
      if sizes[s] <= n {
        assert CodeWord(sizes, s) <= a[..n];
        ShortNotInterior(sizes, s, a[..n]);
      }
    } else {
      FirstExitStable(sizes, a, [], FAST_BITS + 1);
    }
  }

  /** An interior reservoir is not enough. */
  lemma InteriorUndecided(sizes: seq<nat>, a: bits)
    requires Valid(sizes) && |a| < MAX_BITS && Interior(sizes, a)
    ensures Decode(sizes, a) == None
  {
    hide Valid, Code, Interior;
    if s: nat :| Uses(sizes, s) && CodeWord(sizes, s) <= a {
      ShortNotInterior(sizes, s, a);
    }
    NoExit(sizes, a, FAST_BITS + 1);
  }

  lemma FastEnough(look: seq<int>, tree: seq<int>, node: Nodes, next: int, sizes: seq<nat>, a: bits, w: bits)
    requires Valid(sizes) && |sizes| <= 512 && Holds(look, tree, node, next, sizes, |sizes|)
    requires |a| < MAX_BITS <= |w| && a <= w
    requires Cell(look, tree, node, w[..FAST_BITS]) >= 0
    ensures var codeLen := Cell(look, tree, node, w[..FAST_BITS]) / 512;
      Decode(sizes, a).Some? <==> codeLen != 0 && |a| >= codeLen
  {
    hide Valid, Code, Interior, Holds, Cell, Decode;
    var p := w[..FAST_BITS];
    var t := Cell(look, tree, node, p);
    FastAnswer(look, tree, node, next, sizes, w);
    assert w == a + w[|a|..];
    if Decode(sizes, a).Some? {
      DecodeStable(sizes, a, w[|a|..]);
      EarlyAnswer(sizes, a);
    }
    CellMeaning(look, tree, node, next, sizes, p);
    if s: nat :| Ends(sizes, s, p) && t == LeafValue(sizes, s, p) && sizes[s] <= |a| {
      assert CodeWord(sizes, s) == p[..sizes[s]] == a[..sizes[s]];
      assert a == CodeWord(sizes, s) + a[sizes[s]..];
      DecodeCodeWord(sizes, s, a[sizes[s]..]);
    }
  }

  /** The test of `TINFL_HUFF_BITBUF_FILL` (src/external/miniz.h:4253-4267): can the next symbol be
      decoded from the `numBits` bits at hand?  If not, and only then, another byte is fetched. */
  method FillTest(look: array<int>, tree: array<int>, ghost sizes: seq<nat>, bitBuf: nat, numBits: nat, ghost a: bits)
    returns (enough: bool)
    requires Tables(look[..], tree[..], sizes)
    requires numBits == |a| < MAX_BITS && bitBuf == Val(a)
    ensures enough == Decode(sizes, a).Some?
  {
    hide Holds, Decode, Interior, Valid, Padded, Buildable, Cell, Shr, Val, Pow2;
    BuildableValid(sizes);
    ghost var node, next :| Holds(look[..], tree[..], node, next, sizes, |sizes|);
    HoldsBounds(look[..], tree[..], node, next, sizes, |sizes|);
    ghost var w := Padded(a, MAX_BITS);
    PaddedVal(a, MAX_BITS);
    LowTen(w);
    WalkStep(look[..], tree[..], node, next, sizes, w, FAST_BITS);
    FastCell(look[..], tree[..], node, w[..FAST_BITS]);
    var temp := look[bitBuf % FAST_SIZE];
    if temp >= 0 {
      var codeLen := temp / 512;
      FastEnough(look[..], tree[..], node, next, sizes, a, w);
      enough := codeLen != 0 && numBits >= codeLen;
    } else if numBits > FAST_BITS {
      assert a[..FAST_BITS] == w[..FAST_BITS];
      enough := WalkAvailable(look, tree, sizes, bitBuf, numBits, a, temp, node, next);
    } else {
      ShortOfTen(sizes, a, w);
      enough := false;
    }
  }

  lemma ShortOfTen(sizes: seq<nat>, a: bits, w: bits)
    requires Valid(sizes) && |a| <= FAST_BITS <= |w| && a <= w && Interior(sizes, w[..FAST_BITS])
    ensures Decode(sizes, a) == None
  {
    assert w[..FAST_BITS][..|a|] == a;
    InteriorPrefix(sizes, w[..FAST_BITS], |a|);
    InteriorUndecided(sizes, a);
  }

  /** The tree walk of the fill macro, limited to the bits at hand. */
  method WalkAvailable(look: array<int>, tree: array<int>, ghost sizes: seq<nat>, bitBuf: nat, numBits: nat,
                       ghost a: bits,
                       first: int, ghost node: Nodes, ghost next: int)
    returns (enough: bool)
    requires Valid(sizes) && Holds(look[..], tree[..], node, next, sizes, |sizes|)
    requires FAST_BITS < numBits == |a| < MAX_BITS && bitBuf == Val(a)
    requires first < 0 && IsCell(node, a[..FAST_BITS]) && first == Cell(look[..], tree[..], node, a[..FAST_BITS])
    ensures enough == Decode(sizes, a).Some?
  {
    hide Holds, Decode, Interior, Valid, Cell;
    var temp, codeLen := first, FAST_BITS;
    while codeLen == FAST_BITS || (temp < 0 && numBits >= codeLen + 1)
      invariant FAST_BITS <= codeLen <= numBits
      invariant Walked(sizes, a, codeLen) && IsCell(node, a[..codeLen])
      invariant temp == Cell(look[..], tree[..], node, a[..codeLen])
      invariant codeLen == FAST_BITS ==> temp < 0
      decreases numBits - codeLen
    {
      WalkStep(look[..], tree[..], node, next, sizes, a, codeLen);
      TreeCell(look[..], tree[..], node, next, sizes, a, codeLen);
      ValBit(a, codeLen);
      temp := tree[-temp - 1 + Shr(bitBuf, codeLen) % 2];
      codeLen := codeLen + 1;
    }
    if temp >= 0 {
      TreeAnswer(look[..], tree[..], node, next, sizes, a, codeLen);
    } else {
      WalkStep(look[..], tree[..], node, next, sizes, a, codeLen);
      assert a[..codeLen] == a;
      InteriorUndecided(sizes, a);
    }
    enough := temp >= 0;
  }
}
