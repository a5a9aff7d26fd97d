/** The liability tree. */
module Liabtree {
  // A Merkle sum tree over every account's balance. SHA-256 is a parameter `sha`; nothing is assumed of it,
  // so the soundness theorem ends in "or here are two hashed inputs with one digest".

  import opened Octets
  import opened Shuffling
  import Utf8

  const MIN_LEAVES: nat := 16
  const MIN_DEPTH: nat := 4
  const MAX_DEPTH: nat := 32
  const MAX_LEAVES: nat := 0x1_0000_0000
  const MAX_SUM: nat := 0x7fff_ffff_ffff_ffff
  const SALT_SIZE: nat := 32
  const LEFT: byte := 'L' as int
  const RIGHT: byte := 'R' as int

  type Digest = s: Bytes | |s| == 32 witness seq(32, _ => 0)
  type Salt = s: Bytes | |s| == SALT_SIZE witness seq(SALT_SIZE, _ => 0)

  datatype Error = TooMany | EmptyAid | Duplicate | BadPadding | BadSize | BadAid | RandFailed
                 | Malformed | Overflow | WrongRoot | WrongSum

  datatype Leaf = Leaf(aid: Text, balance: u64)
  datatype Entry = Entry(aid: Text, balance: u64, salt: Salt) {
    predicate Padding() { aid == [] }
    function Account(): Leaf { Leaf(aid, balance) }
  }
  datatype Node = Node(hash: Digest, sum: nat)
  datatype Step = Step(hash: Digest, sum: u64, side: byte)
  datatype Proof = Proof(aid: Text, toDay: u64, balance: u64, salt: Salt, path: seq<Step>)

  /** levels[0] are the leaves, the last level is the root alone. */
  datatype Tree = Tree(toDay: u64, entries: seq<Entry>, levels: seq<seq<Node>>, pos: map<Text, nat>) {
    predicate Rooted() { |levels| > 0 && |levels[|levels| - 1]| > 0 }
    function Depth(): nat requires Rooted() { |levels| - 1 }
    function Root(): Digest requires Rooted() { levels[|levels| - 1][0].hash }
    function Outstanding(): nat requires Rooted() { levels[|levels| - 1][0].sum }
  }

  // ---- what is hashed ----

  function LeafContent(aid: Text, toDay: u64, balance: u64): Bytes
  {
    [0xa3, 1] + (CborHead(3, |aid|) + (aid + ([2] + (CborHead(0, toDay) + ([3] + CborHead(0, balance))))))
  }

  function LeafInput(aid: Text, toDay: u64, balance: u64, salt: Salt): Bytes
  {
    Ascii("anet-liab-leaf/v1") + [0] + salt + LeafContent(aid, toDay, balance)
  }

  function NodeInput(l: Node, r: Node): Bytes
  {
    Ascii("anet-liab-node/v1") + [0] + l.hash + Be(l.sum, 8) + r.hash + Be(r.sum, 8)
  }

  lemma {:induction false} LeafContentInjective(a: Text, d: u64, b: u64, a': Text, d': u64, b': u64)
    requires LeafContent(a, d, b) == LeafContent(a', d', b')
    ensures a == a' && d == d' && b == b'
  {
    var tail, tail' := [2] + (CborHead(0, d) + ([3] + CborHead(0, b))), [2] + (CborHead(0, d') + ([3] + CborHead(0, b')));
    AppendCancel([0xa3, 1], CborHead(3, |a|) + (a + tail), [0xa3, 1], CborHead(3, |a'|) + (a' + tail'));
    CborHeadCancel(3, |a|, a + tail, |a'|, a' + tail');
    AppendCancel(a, tail, a', tail');
    AppendCancel([2], CborHead(0, d) + ([3] + CborHead(0, b)), [2], CborHead(0, d') + ([3] + CborHead(0, b')));
    CborHeadCancel(0, d, [3] + CborHead(0, b), d', [3] + CborHead(0, b'));
    AppendCancel([3], CborHead(0, b), [3], CborHead(0, b'));
    assert CborHead(0, b) + [] == CborHead(0, b') + [];
    CborHeadCancel(0, b, [], b', []);
  }

  /** One byte string is the preimage of at most one leaf. */
  lemma {:induction false} LeafInputInjective(a: Text, d: u64, b: u64, s: Salt, a': Text, d': u64, b': u64, s': Salt)
    requires LeafInput(a, d, b, s) == LeafInput(a', d', b', s')
    ensures a == a' && d == d' && b == b' && s == s'
  {
    var tag := Ascii("anet-liab-leaf/v1") + [0];
    assert LeafInput(a, d, b, s) == (tag + s) + LeafContent(a, d, b);
    assert LeafInput(a', d', b', s') == (tag + s') + LeafContent(a', d', b');
    AppendCancel(tag + s, LeafContent(a, d, b), tag + s', LeafContent(a', d', b'));
    AppendCancel(tag, s, tag, s');
    LeafContentInjective(a, d, b, a', d', b');
  }

  /** A parent's preimage fixes both children: their hashes and each child's own sum. */
  lemma {:induction false} NodeInputInjective(l: Node, r: Node, l': Node, r': Node)
    requires l.sum <= MAX_SUM && r.sum <= MAX_SUM && l'.sum <= MAX_SUM && r'.sum <= MAX_SUM
    requires NodeInput(l, r) == NodeInput(l', r')
    ensures l == l' && r == r'
  {
    var tag := Ascii("anet-liab-node/v1") + [0];
    AppendCancel(tag + l.hash + Be(l.sum, 8) + r.hash, Be(r.sum, 8), tag + l'.hash + Be(l'.sum, 8) + r'.hash, Be(r'.sum, 8));
    AppendCancel(tag + l.hash + Be(l.sum, 8), r.hash, tag + l'.hash + Be(l'.sum, 8), r'.hash);
    AppendCancel(tag + l.hash, Be(l.sum, 8), tag + l'.hash, Be(l'.sum, 8));
    AppendCancel(tag, l.hash, tag, l'.hash);
    BeInjective(l.sum, l'.sum);
    BeInjective(r.sum, r'.sum);
  }

  /** What one hash covers. */
  datatype Hashed = LeafAt(aid: Text, toDay: u64, balance: u64, salt: Salt) | NodeAt(left: Node, right: Node)

  function Input(x: Hashed): Bytes
  {
    match x
    case LeafAt(aid, toDay, balance, salt) => LeafInput(aid, toDay, balance, salt)
    case NodeAt(l, r) => NodeInput(l, r)
  }

  /** The two hash functions of the tree; OverSha is the one the package uses. */
  type Hashes = Hashed -> Digest

  function OverSha(sha: Bytes -> Digest): Hashes
  {
    (x: Hashed) => sha(Input(x))
  }

  function LeafHash(h: Hashes, aid: Text, toDay: u64, balance: u64, salt: Salt): Option<Digest>
  {
    if Utf8.Valid(aid) then Some(h(LeafAt(aid, toDay, balance, salt))) else None
  }

  // ---- folding and verifying a proof ----

  function AddSum(a: nat, b: nat): (r: Option<nat>)
    ensures r == (if a + b <= MAX_SUM then Some(a + b) else None)
  {
    if a > MAX_SUM || b > MAX_SUM || a + b > MAX_SUM then None else Some(a + b)
  }

  function Sibling(s: Step): Node { Node(s.hash, s.sum) }

  /** The two children a path step joins, left one first. */
  function Children(cur: Node, s: Step): (Node, Node)
  {
    if s.side == LEFT then (Sibling(s), cur) else (cur, Sibling(s))
  }

  function Climb(h: Hashes, cur: Node, s: Step): Result<Node, Error>
  {
    match AddSum(cur.sum, s.sum)
    case None => Err(Overflow)
    case Some(sum) =>
      if s.side != LEFT && s.side != RIGHT then Err(Malformed)
      else Ok(Node(h(NodeAt(Children(cur, s).0, Children(cur, s).1)), sum))
  }

  /** The node k levels above the proof's leaf. */
  function FoldTo(h: Hashes, p: Proof, k: nat): Result<Node, Error>
    requires k <= |p.path|
  {
    if k == 0 then
      match LeafHash(h, p.aid, p.toDay, p.balance, p.salt)
      case None => Err(Malformed)
      case Some(d) => Ok(Node(d, p.balance))
    else
      match FoldTo(h, p, k - 1)
      case Err(e) => Err(e)
      case Ok(cur) => Climb(h, cur, p.path[k - 1])
  }

  lemma {:induction false} FoldStopsAtError(h: Hashes, p: Proof, k: nat, n: nat)
    requires k <= n <= |p.path| && FoldTo(h, p, k).Err?
    ensures FoldTo(h, p, n) == FoldTo(h, p, k)
    decreases n - k
  {
    if k < n {
      FoldStopsAtError(h, p, k + 1, n);
    }
  }

  method Fold(h: Hashes, p: Proof) returns (r: Result<Node, Error>)
    ensures r == FoldTo(h, p, |p.path|)
  {
    var leaf := LeafHash(h, p.aid, p.toDay, p.balance, p.salt);
    if leaf.None? {
      FoldStopsAtError(h, p, 0, |p.path|);
      return Err(Malformed);
    }
    var cur := Node(leaf.value, p.balance);
    for i := 0 to |p.path|
      invariant FoldTo(h, p, i) == Ok(cur)
    {
      var s := p.path[i];
      var sum := AddSum(cur.sum, s.sum);
      if sum.None? {
        FoldStopsAtError(h, p, i + 1, |p.path|);
        return Err(Overflow);
      }
      var sib := Node(s.hash, s.sum);
      if s.side == LEFT {
        cur := Node(h(NodeAt(sib, cur)), sum.value);
      } else if s.side == RIGHT {
        cur := Node(h(NodeAt(cur, sib)), sum.value);
      } else {
        FoldStopsAtError(h, p, i + 1, |p.path|);
        return Err(Malformed);
      }
    }
    r := Ok(cur);
  }

  /** What Verify accepts, as one condition. */
  predicate Accepts(h: Hashes, p: Proof, root: Digest, outstanding: u64, depth: int)
  {
    && MIN_DEPTH <= depth <= MAX_DEPTH
    && |p.path| == depth
    && p.aid != []
    && outstanding <= MAX_SUM
    && FoldTo(h, p, depth) == Ok(Node(root, outstanding))
  }

  method Verify(h: Hashes, p: Proof, root: Digest, outstanding: u64, depth: int) returns (e: Option<Error>)
    ensures e.None? <==> Accepts(h, p, root, outstanding, depth)
    ensures e == Some(WrongRoot) ==> FoldTo(h, p, |p.path|).Ok? && FoldTo(h, p, |p.path|).value.hash != root
    ensures e == Some(WrongSum) ==>
      && FoldTo(h, p, |p.path|).Ok?
      && FoldTo(h, p, |p.path|).value.hash == root
      && FoldTo(h, p, |p.path|).value.sum != outstanding
    ensures e.None? || e.value in {Malformed, Overflow, WrongRoot, WrongSum}
  {
    if depth < MIN_DEPTH || depth > MAX_DEPTH || |p.path| != depth || p.aid == [] {
      return Some(Malformed);
    }
    if outstanding > MAX_SUM {
      return Some(Overflow);
    }
    var top := Fold(h, p);
    match top
    case Err(err) =>
      FoldErrors(h, p, |p.path|);
      return Some(err);
    case Ok(node) =>
      if node.hash != root {
        return Some(WrongRoot);
      }
      if node.sum != outstanding {
        return Some(WrongSum);
      }
      return None;
  }

  lemma {:induction false} FoldErrors(h: Hashes, p: Proof, k: nat)
    requires k <= |p.path|
    ensures FoldTo(h, p, k).Err? ==> FoldTo(h, p, k).error in {Malformed, Overflow}
  {
    if k > 0 { FoldErrors(h, p, k - 1); }
  }

  // ---- soundness against a dishonest publisher ----

  /** What verification hashes at level k of a proof whose fold gets that far. */
  function HashedAt(h: Hashes, p: Proof, k: nat): Hashed
    requires k <= |p.path| && FoldTo(h, p, k).Ok?
  {
    if k == 0 then LeafAt(p.aid, p.toDay, p.balance, p.salt)
    else
      var c := Children(FoldTo(h, p, k - 1).value, p.path[k - 1]);
      NodeAt(c.0, c.1)
  }

  predicate Reaches(h: Hashes, p: Proof, k: nat)
  {
    k <= |p.path| && FoldTo(h, p, k).Ok?
  }

  /** Checking these proofs hashes two different things to one digest. */
  ghost predicate Clash(h: Hashes, ps: seq<Proof>, depth: nat)
  {
    exists p, q, k: nat ::
      && p in ps && q in ps && k <= depth && Reaches(h, p, k) && Reaches(h, q, k)
      && HashedAt(h, p, k) != HashedAt(h, q, k)
      && h(HashedAt(h, p, k)) == h(HashedAt(h, q, k))
  }

  predicate DistinctAids(ps: seq<Proof>)
  {
    forall i, j | 0 <= i < j < |ps| :: ps[i].aid != ps[j].aid
  }

  function Balances(ps: seq<Proof>): nat
  {
    if ps == [] then 0 else ps[0].balance + Balances(ps[1..])
  }

  /** The proofs that reach level k + 1 from the given side. */
  function OnSide(ps: seq<Proof>, k: nat, left: bool): (qs: seq<Proof>)
    requires forall p | p in ps :: k < |p.path|
    ensures forall q | q in qs :: q in ps && (q.path[k].side == RIGHT) == left
  {
    if ps == [] then []
    else if (ps[0].path[k].side == RIGHT) == left then [ps[0]] + OnSide(ps[1..], k, left)
    else OnSide(ps[1..], k, left)
  }

  lemma {:induction false} SplitBySide(ps: seq<Proof>, k: nat)
    requires forall p | p in ps :: k < |p.path|
    ensures Balances(ps) == Balances(OnSide(ps, k, true)) + Balances(OnSide(ps, k, false))
  {
    if ps != [] {
      SplitBySide(ps[1..], k);
      var left := ps[0].path[k].side == RIGHT;
      assert OnSide(ps, k, left)[1..] == OnSide(ps[1..], k, left);
    }
  }

  lemma {:induction false} SideKeepsDistinct(ps: seq<Proof>, k: nat, left: bool)
    requires forall p | p in ps :: k < |p.path|
    requires DistinctAids(ps)
    ensures DistinctAids(OnSide(ps, k, left))
  {
    if ps != [] {
      SideKeepsDistinct(ps[1..], k, left);
      forall q | q in OnSide(ps[1..], k, left) ensures q.aid != ps[0].aid {
        var i :| 0 <= i < |ps[1..]| && ps[1..][i] == q;
        assert ps[i + 1] == q;
      }
    }
  }

  lemma {:induction false} SideClash(h: Hashes, ps: seq<Proof>, k: nat, left: bool)
    requires forall p | p in ps :: k < |p.path|
    requires !Clash(h, ps, k + 1)
    ensures !Clash(h, OnSide(ps, k, left), k)
  {
  }

  /** Proofs that meet in one node k + 1 levels up name the same two children there. */
  lemma {:induction false} SameChildren(h: Hashes, ps: seq<Proof>, k: nat, root: Node, p: Proof, q: Proof)
    requires p in ps && q in ps && k < |p.path| && k < |q.path|
    requires FoldTo(h, p, k + 1) == Ok(root) && FoldTo(h, q, k + 1) == Ok(root)
    requires !Clash(h, ps, k + 1)
    ensures FoldTo(h, p, k).Ok? && FoldTo(h, q, k).Ok?
    ensures Children(FoldTo(h, p, k).value, p.path[k]) == Children(FoldTo(h, q, k).value, q.path[k])
  {
    assert Reaches(h, p, k + 1) && Reaches(h, q, k + 1);
    assert HashedAt(h, p, k + 1) == HashedAt(h, q, k + 1);
  }

  lemma {:induction false} OneProofPerLeaf(h: Hashes, ps: seq<Proof>, root: Node)
    requires DistinctAids(ps)
    requires forall p | p in ps :: FoldTo(h, p, 0) == Ok(root)
    requires !Clash(h, ps, 0)
    ensures Balances(ps) <= root.sum
  {
    if |ps| > 1 {
      var p, q := ps[0], ps[1];
      assert Reaches(h, p, 0) && Reaches(h, q, 0);
    } else if |ps| == 1 {
      assert ps[1..] == [] && ps[0] in ps;
    }
  }

  lemma {:induction false} SubtreeBound(h: Hashes, ps: seq<Proof>, k: nat, root: Node)
    requires DistinctAids(ps)
    requires forall p | p in ps :: k <= |p.path| && FoldTo(h, p, k) == Ok(root)
    requires !Clash(h, ps, k)
    ensures Balances(ps) <= root.sum
    decreases k
  {
    if ps == [] {
    } else if k == 0 {
      OneProofPerLeaf(h, ps, root);
    } else {
      var first := ps[0];
      SameChildren(h, ps, k - 1, root, first, first);
      var c := Children(FoldTo(h, first, k - 1).value, first.path[k - 1]);
      SubtreeSide(h, ps, k - 1, root, c, true);
      SubtreeSide(h, ps, k - 1, root, c, false);
      SubtreeBound(h, OnSide(ps, k - 1, true), k - 1, c.0);
      SubtreeBound(h, OnSide(ps, k - 1, false), k - 1, c.1);
      SplitBySide(ps, k - 1);
    }
  }

  /** The proofs on one side of a node all fold to that side's child. */
  lemma {:induction false} SubtreeSide(h: Hashes, ps: seq<Proof>, k: nat, root: Node, c: (Node, Node), left: bool)
    requires DistinctAids(ps)
    requires forall p | p in ps :: k < |p.path| && FoldTo(h, p, k + 1) == Ok(root)
    requires !Clash(h, ps, k + 1)
    requires exists p | p in ps :: FoldTo(h, p, k).Ok? && c == Children(FoldTo(h, p, k).value, p.path[k])
    ensures DistinctAids(OnSide(ps, k, left)) && !Clash(h, OnSide(ps, k, left), k)
    ensures forall q | q in OnSide(ps, k, left) :: FoldTo(h, q, k) == Ok(if left then c.0 else c.1)
  {
    var p :| p in ps && FoldTo(h, p, k).Ok? && c == Children(FoldTo(h, p, k).value, p.path[k]);
    SideKeepsDistinct(ps, k, left);
    SideClash(h, ps, k, left);
    forall q | q in OnSide(ps, k, left) ensures FoldTo(h, q, k) == Ok(if left then c.0 else c.1) {
      SameChildren(h, ps, k, root, p, q);
    }
  }

  /**
   Whoever published (root, outstanding, depth): the balances of any proofs with distinct AIDs that
   all verify add up to at most outstanding, or checking them hashes two different inputs to one digest.
   */
  lemma {:induction false} PublisherCannotHideLiabilities(h: Hashes, ps: seq<Proof>, root: Digest, outstanding: u64, depth: nat)
    requires DistinctAids(ps)
    requires forall p | p in ps :: Accepts(h, p, root, outstanding, depth)
    ensures Balances(ps) <= outstanding || Clash(h, ps, depth)
  {
    if !Clash(h, ps, depth) {
      SubtreeBound(h, ps, depth, Node(root, outstanding));
    }
  }

  // ---- building ----

  function LeafNode(h: Hashes, toDay: u64, e: Entry): Node
  {
    Node(h(LeafAt(e.aid, toDay, e.balance, e.salt)), e.balance)
  }

  function LeafNodes(h: Hashes, toDay: u64, entries: seq<Entry>): (row: seq<Node>)
    ensures |row| == |entries|
  {
    seq(|entries|, i requires 0 <= i < |entries| => LeafNode(h, toDay, entries[i]))
  }

  function Parent(h: Hashes, l: Node, r: Node): Node { Node(h(NodeAt(l, r)), l.sum + r.sum) }

  function Pairs(h: Hashes, row: seq<Node>): (up: seq<Node>)
    ensures |up| == |row| / 2
  {
    seq(|row| / 2, i requires 0 <= i < |row| / 2 => Parent(h, row[2 * i], row[2 * i + 1]))
  }

  function Levels(h: Hashes, row: seq<Node>): (ls: seq<seq<Node>>)
    ensures |ls| > 0 && ls[0] == row
    ensures |row| > 0 ==> |ls[|ls| - 1]| == 1
    decreases |row|
  {
    if |row| <= 1 then [row] else [row] + Levels(h, Pairs(h, row))
  }

  /** pos of the first n entries: where each account is. */
  function Positions(entries: seq<Entry>, n: nat): map<Text, nat>
    requires n <= |entries|
  {
    if n == 0 then map[]
    else if entries[n - 1].Padding() then Positions(entries, n - 1)
    else Positions(entries, n - 1)[entries[n - 1].aid := n - 1]
  }

  function TreeOf(h: Hashes, toDay: u64, entries: seq<Entry>): Tree
  {
    Tree(toDay, entries, Levels(h, LeafNodes(h, toDay, entries)), Positions(entries, |entries|))
  }

  function Total(row: seq<Node>): nat
  {
    if row == [] then 0 else row[0].sum + Total(row[1..])
  }

  function Owed(leaves: seq<Leaf>): nat
  {
    if leaves == [] then 0 else leaves[0].balance + Owed(leaves[1..])
  }

  function Accounts(entries: seq<Entry>): (ls: seq<Leaf>)
    ensures |ls| == |entries|
  {
    seq(|entries|, i requires 0 <= i < |entries| => entries[i].Account())
  }

  predicate IsPow2(n: nat)
  {
    n == 1 || (n > 0 && n % 2 == 0 && IsPow2(n / 2))
  }

  /** What building over given leaves yields: only a bad AID or a total over 2^63-1 stops it. */
  function Built(h: Hashes, toDay: u64, entries: seq<Entry>): Result<Tree, Error>
  {
    if exists e | e in entries :: !Utf8.Valid(e.aid) then Err(BadAid)
    else if Owed(Accounts(entries)) > MAX_SUM then Err(Overflow)
    else Ok(TreeOf(h, toDay, entries))
  }

  lemma {:induction false} TotalOfPairs(h: Hashes, row: seq<Node>)
    requires |row| % 2 == 0
    ensures Total(Pairs(h, row)) == Total(row)
    decreases |row|
  {
    if row != [] {
      TotalOfPairs(h, row[2..]);
      assert Pairs(h, row)[1..] == Pairs(h, row[2..]);
      assert row[1..][1..] == row[2..];
      assert Total(row) == row[0].sum + (row[1].sum + Total(row[2..]));
    }
  }

  lemma {:induction false} PairWithinTotal(row: seq<Node>, i: nat)
    requires i + 1 < |row|
    ensures row[i].sum + row[i + 1].sum <= Total(row)
  {
    if i > 0 {
      PairWithinTotal(row[1..], i - 1);
    } else {
      assert Total(row) == row[0].sum + (row[1].sum + Total(row[1..][1..]));
    }
  }

  lemma {:induction false} OwedIsTotal(h: Hashes, toDay: u64, entries: seq<Entry>)
    ensures Owed(Accounts(entries)) == Total(LeafNodes(h, toDay, entries))
  {
    if entries != [] {
      OwedIsTotal(h, toDay, entries[1..]);
      assert Accounts(entries)[1..] == Accounts(entries[1..]);
      assert LeafNodes(h, toDay, entries)[1..] == LeafNodes(h, toDay, entries[1..]);
    }
  }

  lemma {:induction false} LevelsSnoc(h: Hashes, done: seq<seq<Node>>, row: seq<Node>)
    requires |row| > 1
    ensures done + Levels(h, row) == (done + [row]) + Levels(h, Pairs(h, row))
  {
  }

  method LeafRow(h: Hashes, toDay: u64, entries: seq<Entry>) returns (r: Option<(seq<Node>, map<Text, nat>)>)
    ensures r == if exists e | e in entries :: !Utf8.Valid(e.aid) then None
                 else Some((LeafNodes(h, toDay, entries), Positions(entries, |entries|)))
  {
    var leaves := new Node[|entries|](_ => Node(seq(32, _ => 0), 0));
    var pos: map<Text, nat> := map[];
    for i := 0 to |entries|
      invariant pos == Positions(entries, i)
      invariant forall j | 0 <= j < i :: Utf8.Valid(entries[j].aid) && leaves[j] == LeafNode(h, toDay, entries[j])
    {
      var e := entries[i];
      var hash := LeafHash(h, e.aid, toDay, e.balance, e.salt);
      if hash.None? {
        return None;
      }
      leaves[i] := Node(hash.value, e.balance);
      if !e.Padding() {
        pos := pos[e.aid := i];
      }
    }
    assert leaves[..] == LeafNodes(h, toDay, entries);
    r := Some((leaves[..], pos));
  }

  /** One level up, or None when some pair's sum is over the maximum. */
  method PairUp(h: Hashes, cur: seq<Node>) returns (r: Option<seq<Node>>)
    requires |cur| % 2 == 0
    ensures r.Some? ==> r.value == Pairs(h, cur)
    ensures r.Some? ==> forall j | 0 <= j < |cur| / 2 :: cur[2 * j].sum + cur[2 * j + 1].sum <= MAX_SUM
    ensures r.None? ==> Total(cur) > MAX_SUM
  {
    var next := new Node[|cur| / 2](_ => Node(seq(32, _ => 0), 0));
    for i := 0 to |cur| / 2
      invariant forall j | 0 <= j < i :: next[j] == Parent(h, cur[2 * j], cur[2 * j + 1])
      invariant forall j | 0 <= j < i :: cur[2 * j].sum + cur[2 * j + 1].sum <= MAX_SUM
    {
      var l, r := cur[2 * i], cur[2 * i + 1];
      var sum := AddSum(l.sum, r.sum);
      if sum.None? {
        PairWithinTotal(cur, 2 * i);
        return None;
      }
      next[i] := Node(h(NodeAt(l, r)), sum.value);
    }
    assert next[..] == Pairs(h, cur);
    r := Some(next[..]);
  }

  method BuildTree(h: Hashes, toDay: u64, entries: seq<Entry>) returns (r: Result<Tree, Error>)
    requires |entries| >= 2 && IsPow2(|entries|)
    ensures r == Built(h, toDay, entries)
  {
    var leaves := LeafRow(h, toDay, entries);
    if leaves.None? {
      return Err(BadAid);
    }
    OwedIsTotal(h, toDay, entries);
    var levels := BuildLevels(h, leaves.value.0);
    if levels.None? {
      return Err(Overflow);
    }
    r := Ok(Tree(toDay, entries, levels.value, leaves.value.1));
  }

  /** The levels above a row of leaves, or None when their total is over the maximum. */
  method BuildLevels(h: Hashes, row: seq<Node>) returns (r: Option<seq<seq<Node>>>)
    requires |row| >= 2 && IsPow2(|row|)
    ensures r == if Total(row) > MAX_SUM then None else Some(Levels(h, row))
  {
    var levels: seq<seq<Node>> := [];
    var cur := row;
    while |cur| > 1
      invariant |cur| >= 1 && IsPow2(|cur|) && Total(cur) == Total(row)
      invariant |cur| == 1 ==> Total(row) <= MAX_SUM
      invariant levels + Levels(h, cur) == Levels(h, row)
      decreases |cur|
    {
      var next := PairUp(h, cur);
      if next.None? {
        return None;
      }
      TotalOfPairs(h, cur);
      LevelsSnoc(h, levels, cur);
      if |cur| == 2 { TotalOfTwo(cur); }
      levels := levels + [cur];
      cur := next.value;
    }
    assert Levels(h, cur) == [cur];
    r := Some(levels + [cur]);
  }

  lemma {:induction false} TotalOfTwo(row: seq<Node>)
    requires |row| == 2
    ensures Total(row) == row[2 * 0].sum + row[2 * 0 + 1].sum
  {
    assert Total(row[1..]) == row[1].sum + Total([]);
  }

  // ---- shuffling and salting ----

  /** No account appears twice, and padding holds nothing. */
  predicate Distinct(ls: seq<Leaf>)
  {
    && (forall i, j | 0 <= i < |ls| && 0 <= j < |ls| && i != j :: ls[i].aid == ls[j].aid ==> ls[i].aid == [])
    && (forall i | 0 <= i < |ls| :: ls[i].aid == [] ==> ls[i].balance == 0)
  }

  lemma {:induction false} OwedUpdate(ls: seq<Leaf>, i: nat, l: Leaf)
    requires i < |ls|
    ensures Owed(ls[i := l]) == Owed(ls) - ls[i].balance + l.balance
  {
    if i > 0 {
      OwedUpdate(ls[1..], i - 1, l);
      assert ls[i := l][1..] == ls[1..][i - 1 := l];
    } else {
      assert ls[0 := l][1..] == ls[1..];
    }
  }

  lemma {:induction false} SwapKeeps(s: seq<Leaf>, i: nat, j: nat)
    requires i < |s| && j < |s|
    ensures multiset(Swap(s, i, j)) == multiset(s) && Owed(Swap(s, i, j)) == Owed(s)
  {
    OwedUpdate(s, i, s[j]);
    OwedUpdate(s[i := s[j]], j, s[i]);
  }

  lemma {:induction false} SwapKeepsDistinct(s: seq<Leaf>, i: nat, j: nat)
    requires i < |s| && j < |s| && Distinct(s)
    ensures Distinct(Swap(s, i, j))
  {
    var t := Swap(s, i, j);
    var from := (k: nat) => if k == i then j else if k == j then i else k;
    assert forall k: nat | k < |s| :: t[k] == s[from(k)];
    forall a: nat, b: nat | a < |t| && b < |t| && a != b && t[a].aid == t[b].aid ensures t[a].aid == [] {
      assert from(a) != from(b) && s[from(a)].aid == s[from(b)].aid;
    }
  }

  lemma {:induction false} ShuffleKeeps(s: seq<Leaf>, i: nat, data: Bytes)
    requires i < |s| < TWO_64 && Shuffled(s, i, data).Some?
    ensures var t := Shuffled(s, i, data).value.0;
      multiset(t) == multiset(s) && Owed(t) == Owed(s) && (Distinct(s) ==> Distinct(t))
    decreases i
  {
    if i > 0 {
      var d := Draw(data, i + 1).value;
      SwapKeeps(s, i, d.0);
      if Distinct(s) { SwapKeepsDistinct(s, i, d.0); }
      ShuffleKeeps(Swap(s, i, d.0), i - 1, d.1);
    }
  }

  function Salts(es: seq<Entry>): Bytes
  {
    if es == [] then [] else Salts(es[..|es| - 1]) + es[|es| - 1].salt
  }

  /** No byte of the source is used for two salts, nor for a salt and a draw. */
  lemma {:induction false} SaltsAreFresh(order: seq<Leaf>, data: Bytes)
    requires SALT_SIZE * |order| <= |data|
    ensures Salts(Salted(order, data)) == data[..SALT_SIZE * |order|]
    decreases |order|
  {
    if order != [] {
      var n := |order| - 1;
      SaltsAreFresh(order[..n], data);
      SaltedSnoc(order, data, n);
      Slices(data, SALT_SIZE * n, SALT_SIZE * n + SALT_SIZE);
    }
  }

  lemma {:induction false} SaltedSnoc(order: seq<Leaf>, data: Bytes, n: nat)
    requires SALT_SIZE * |order| <= |data| && |order| == n + 1
    ensures Salted(order, data)[..n] == Salted(order[..n], data)
    ensures Salted(order, data)[n].salt == data[SALT_SIZE * n..SALT_SIZE * n + SALT_SIZE]
  {
  }

  lemma {:induction false} Slices(data: Bytes, a: nat, b: nat)
    requires a <= b <= |data|
    ensures data[..a] + data[a..b] == data[..b]
  {
  }

  const NO_SALT: Salt := seq(SALT_SIZE, _ => 0)

  function Salted(order: seq<Leaf>, data: Bytes): (es: seq<Entry>)
    requires SALT_SIZE * |order| <= |data|
    ensures |es| == |order|
    ensures Accounts(es) == order
  {
    seq(|order|, i requires 0 <= i < |order| =>
      Entry(order[i].aid, order[i].balance, data[SALT_SIZE * i..SALT_SIZE * i + SALT_SIZE]))
  }

  function Doubled(size: nat, n: nat): (r: nat)
    requires size > 0
    decreases n - size
  {
    if size < n then Doubled(2 * size, n) else size
  }

  function TreeSize(n: nat): nat { Doubled(MIN_LEAVES, n) }

  lemma {:induction false} DoubledSize(size: nat, n: nat)
    requires size >= 2 && IsPow2(size) && size <= MAX_LEAVES && n <= MAX_LEAVES
    ensures n <= Doubled(size, n) && size <= Doubled(size, n) <= MAX_LEAVES && IsPow2(Doubled(size, n))
    ensures Doubled(size, n) == size || Doubled(size, n) / 2 < n
    decreases n - size
  {
    if size < n {
      Pow2Gap(size);
      DoubledSize(2 * size, n);
    }
  }

  lemma {:induction false} PowersApart(p: nat, q: nat)
    requires IsPow2(p) && IsPow2(q) && p < q
    ensures 2 * p <= q
    decreases p
  {
    if p > 1 { PowersApart(p / 2, q / 2); }
  }

  /** The tree has the least power of two of places, at least 16, that holds the accounts. */
  lemma {:induction false} TreeSizeIsLeast(n: nat, p: nat)
    requires n <= MAX_LEAVES
    ensures IsPow2(TreeSize(n)) && 16 <= TreeSize(n) <= MAX_LEAVES && n <= TreeSize(n)
    ensures IsPow2(p) && 16 <= p && n <= p ==> TreeSize(n) <= p
  {
    DoubledSize(MIN_LEAVES, n);
    if IsPow2(p) && 16 <= p && n <= p && p < TreeSize(n) { PowersApart(p, TreeSize(n)); }
  }

  /** Below 2^32 the next power of two is at most 2^32. */
  lemma {:induction false} Pow2Gap(size: nat)
    requires IsPow2(size) && size < MAX_LEAVES
    ensures 2 * size <= MAX_LEAVES
  {
    Pow2Of32();
    Pow2Divides(size, 32);
  }

  lemma {:induction false} Pow2Of32()
    ensures Pow2(32) == MAX_LEAVES
  {
    assert Pow2(4) == 16;
    Pow2Add(4, 4);
    Pow2Add(8, 8);
    Pow2Add(16, 16);
  }

  lemma {:induction false} Pow2Divides(size: nat, k: nat)
    requires IsPow2(size) && size < Pow2(k)
    ensures 2 * size <= Pow2(k)
    decreases k
  {
    if size == 1 {
    } else if k > 0 {
      Pow2Divides(size / 2, k - 1);
    }
  }

  function Excess(n: nat): nat { if n < TreeSize(n) then TreeSize(n) - n else 0 }

  /** The accounts in the given order, then the padding leaves. */
  function Padded(leaves: seq<Leaf>): (ls: seq<Leaf>)
    ensures |ls| == |leaves| + Excess(|leaves|)
  {
    leaves + Pads(Excess(|leaves|))
  }

  function Pads(n: nat): (ls: seq<Leaf>)
    ensures |ls| == n
  {
    seq(n, _ => Leaf([], 0))
  }

  /** The first error among the first n accounts: an empty AID, or one that came before. */
  function AccountError(leaves: seq<Leaf>, n: nat): Option<Error>
    requires n <= |leaves|
  {
    if n == 0 then None
    else if AccountError(leaves, n - 1).Some? then AccountError(leaves, n - 1)
    else if leaves[n - 1].aid == [] then Some(EmptyAid)
    else if exists j | 0 <= j < n - 1 :: leaves[j].aid == leaves[n - 1].aid then Some(Duplicate)
    else None
  }

  predicate GoodAccounts(leaves: seq<Leaf>)
  {
    && (forall i | 0 <= i < |leaves| :: leaves[i].aid != [])
    && (forall i, j | 0 <= i < j < |leaves| :: leaves[i].aid != leaves[j].aid)
  }

  lemma {:induction false} NoAccountError(leaves: seq<Leaf>, n: nat)
    requires n <= |leaves|
    ensures AccountError(leaves, n).None? <==> GoodAccounts(leaves[..n])
  {
    if n > 0 {
      NoAccountError(leaves, n - 1);
      assert leaves[..n][..n - 1] == leaves[..n - 1];
      if GoodAccounts(leaves[..n]) {
        forall j | 0 <= j < n - 1 ensures leaves[j].aid != leaves[n - 1].aid {
          assert leaves[..n][j].aid != leaves[..n][n - 1].aid;
        }
        assert leaves[..n][n - 1].aid != [];
        assert forall i | 0 <= i < n - 1 :: leaves[..n - 1][i] == leaves[..n][i];
      }
    }
  }

  /** The leaves in their final order with their salts, as a function of the bytes the random source yields. */
  function Ordered(leaves: seq<Leaf>, data: Bytes): (r: Result<seq<Entry>, Error>)
    ensures r.Ok? ==> |r.value| >= 2 && IsPow2(|r.value|)
  {
    if |leaves| > MAX_LEAVES then Err(TooMany)
    else if AccountError(leaves, |leaves|).Some? then Err(AccountError(leaves, |leaves|).value)
    else
      DoubledSize(MIN_LEAVES, |leaves|);
      match Randomized(Padded(leaves), data)
      case None => Err(RandFailed)
      case Some(entries) => Ok(entries)
  }

  /** The accounts in the order and with the salts that the data give. */
  function Randomized(ls: seq<Leaf>, data: Bytes): (r: Option<seq<Entry>>)
    requires 0 < |ls| < TWO_64
    ensures r.Some? ==> |r.value| == |ls|
  {
    match Shuffled(ls, |ls| - 1, data)
    case None => None
    case Some(s) => if |s.1| < SALT_SIZE * |s.0| then None else Some(Salted(s.0, s.1))
  }

  function BuildFrom(h: Hashes, leaves: seq<Leaf>, toDay: u64, data: Bytes): Result<Tree, Error>
  {
    match Ordered(leaves, data)
    case Err(e) => Err(e)
    case Ok(entries) => Built(h, toDay, entries)
  }

  method GrowTo(n: nat) returns (size: nat)
    ensures size == TreeSize(n)
  {
    size := MIN_LEAVES;
    while size < n
      invariant 0 < size && Doubled(size, n) == TreeSize(n)
    {
      size := 2 * size;
    }
  }

  method PlaceAccounts(leaves: seq<Leaf>, entries: array<Entry>) returns (e: Option<Error>)
    requires |leaves| <= entries.Length
    requires forall j | 0 <= j < entries.Length :: entries[j] == Entry([], 0, NO_SALT)
    modifies entries
    ensures e == AccountError(leaves, |leaves|)
    ensures e.None? ==> Accounts(entries[..]) == leaves + Pads(entries.Length - |leaves|)
  {
    var seen: set<Text> := {};
    for i := 0 to |leaves|
      invariant AccountError(leaves, i).None?
      invariant forall a :: a in seen <==> exists j | 0 <= j < i :: leaves[j].aid == a
      invariant forall j | 0 <= j < i :: entries[j].Account() == leaves[j]
      invariant forall j | i <= j < entries.Length :: entries[j] == Entry([], 0, NO_SALT)
    {
      var l := leaves[i];
      if l.aid == [] {
        AccountErrorStays(leaves, i + 1, |leaves|);
        return Some(EmptyAid);
      }
      if l.aid in seen {
        AccountErrorStays(leaves, i + 1, |leaves|);
        return Some(Duplicate);
      }
      seen := seen + {l.aid};
      entries[i] := Entry(l.aid, l.balance, NO_SALT);
    }
    e := None;
  }

  method SaltInPlace(entries: array<Entry>, rand: Reader) returns (ok: bool)
    modifies entries, rand
    ensures ok == (SALT_SIZE * entries.Length <= |old(rand.rest)|)
    ensures ok ==> entries[..] == Salted(Accounts(old(entries[..])), old(rand.rest))
  {
    ghost var order, data := Accounts(entries[..]), rand.rest;
    for i := 0 to entries.Length
      invariant SALT_SIZE * i <= |data| && rand.rest == data[SALT_SIZE * i..]
      invariant forall j | 0 <= j < i ::
        entries[j] == Entry(order[j].aid, order[j].balance, data[SALT_SIZE * j..SALT_SIZE * j + SALT_SIZE])
      invariant forall j | i <= j < entries.Length :: entries[j].Account() == order[j]
    {
      var salt := rand.ReadFull(SALT_SIZE);
      if salt.None? {
        return false;
      }
      assert salt.value == data[SALT_SIZE * i..SALT_SIZE * i + SALT_SIZE];
      entries[i] := Entry(entries[i].aid, entries[i].balance, salt.value);
    }
    assert entries[..] == Salted(order, data);
    ok := true;
  }

  method Arrange(leaves: seq<Leaf>, rand: Reader) returns (r: Result<seq<Entry>, Error>)
    modifies rand
    ensures r == Ordered(leaves, old(rand.rest))
  {
    if |leaves| > MAX_LEAVES {
      return Err(TooMany);
    }
    DoubledSize(MIN_LEAVES, |leaves|);
    var size := GrowTo(|leaves|);
    var entries := new Entry[size](_ => Entry([], 0, NO_SALT));
    var e := PlaceAccounts(leaves, entries);
    if e.Some? {
      return Err(e.value);
    }
    var ok := Randomize(entries, rand);
    r := if ok then Ok(entries[..]) else Err(RandFailed);
  }

  method Randomize(entries: array<Entry>, rand: Reader) returns (ok: bool)
    requires 0 < entries.Length < TWO_64
    modifies entries, rand
    ensures ok == Randomized(Accounts(old(entries[..])), old(rand.rest)).Some?
    ensures ok ==> Randomized(Accounts(old(entries[..])), old(rand.rest)) == Some(entries[..])
  {
    ok := ShuffleInPlace(entries, rand);
    if ok {
      ok := SaltInPlace(entries, rand);
    }
  }

  method Build(h: Hashes, leaves: seq<Leaf>, toDay: u64, rand: Reader) returns (r: Result<Tree, Error>)
    modifies rand
    ensures r == BuildFrom(h, leaves, toDay, old(rand.rest))
  {
    var entries := Arrange(leaves, rand);
    if entries.Err? {
      return Err(entries.error);
    }
    r := BuildTree(h, toDay, entries.value);
  }

  lemma {:induction false} AccountErrorStays(leaves: seq<Leaf>, n: nat, m: nat)
    requires n <= m <= |leaves| && AccountError(leaves, n).Some?
    ensures AccountError(leaves, m) == AccountError(leaves, n)
    decreases m - n
  {
    if n < m { AccountErrorStays(leaves, n + 1, m); }
  }

  lemma {:induction false} AccountsOfSwap(es: seq<Entry>, i: nat, j: nat)
    requires i < |es| && j < |es|
    ensures Accounts(Swap(es, i, j)) == Swap(Accounts(es), i, j)
  {
  }

  method SwapInPlace(entries: array<Entry>, i: nat, j: nat)
    requires i < entries.Length && j < entries.Length
    modifies entries
    ensures entries[..] == Swap(old(entries[..]), i, j)
  {
    entries[i], entries[j] := entries[j], entries[i];
  }

  method ShuffleInPlace(entries: array<Entry>, rand: Reader) returns (ok: bool)
    requires 0 < entries.Length < TWO_64
    modifies entries, rand
    ensures ok == Shuffled(Accounts(old(entries[..])), entries.Length - 1, old(rand.rest)).Some?
    ensures ok ==> Shuffled(Accounts(old(entries[..])), entries.Length - 1, old(rand.rest))
                   == Some((Accounts(entries[..]), rand.rest))
  {
    ghost var goal := Shuffled(Accounts(entries[..]), entries.Length - 1, rand.rest);
    var i := entries.Length - 1;
    while i > 0
      invariant 0 <= i < entries.Length
      invariant Shuffled(Accounts(entries[..]), i, rand.rest) == goal
    {
      var j := Uniform(rand, i + 1);
      if j.None? {
        return false;
      }
      AccountsOfSwap(entries[..], i, j.value);
      SwapInPlace(entries, i, j.value);
      i := i - 1;
    }
    ok := true;
  }

  /** The leaves a hub stored at the close, checked and hashed again in their order. */
  function RebuildFrom(h: Hashes, toDay: u64, entries: seq<Entry>): Result<Tree, Error>
  {
    if |entries| < MIN_LEAVES || |entries| > MAX_LEAVES || !IsPow2(|entries|) then Err(BadSize)
    else if EntryError(entries, |entries|).Some? then Err(EntryError(entries, |entries|).value)
    else Built(h, toDay, entries)
  }

  /** The first error among the first n entries: padding with a balance, or an account seen before. */
  function EntryError(entries: seq<Entry>, n: nat): Option<Error>
    requires n <= |entries|
  {
    if n == 0 then None
    else if EntryError(entries, n - 1).Some? then EntryError(entries, n - 1)
    else if entries[n - 1].Padding() then if entries[n - 1].balance != 0 then Some(BadPadding) else None
    else if exists j | 0 <= j < n - 1 :: entries[j].aid == entries[n - 1].aid then Some(Duplicate)
    else None
  }

  lemma {:induction false} EntryErrorStays(entries: seq<Entry>, n: nat, m: nat)
    requires n <= m <= |entries| && EntryError(entries, n).Some?
    ensures EntryError(entries, m) == EntryError(entries, n)
    decreases m - n
  {
    if n < m { EntryErrorStays(entries, n + 1, m); }
  }

  method Rebuild(h: Hashes, toDay: u64, entries: seq<Entry>) returns (r: Result<Tree, Error>)
    ensures r == RebuildFrom(h, toDay, entries)
  {
    var n := |entries|;
    if n < MIN_LEAVES || n > MAX_LEAVES || !IsPow2(n) {
      return Err(BadSize);
    }
    var seen: set<Text> := {};
    for i := 0 to n
      invariant EntryError(entries, i).None?
      invariant seen == set j | 0 <= j < i && !entries[j].Padding() :: entries[j].aid
    {
      var e := entries[i];
      if e.Padding() {
        if e.balance != 0 {
          EntryErrorStays(entries, i + 1, n);
          return Err(BadPadding);
        }
      } else {
        if e.aid in seen {
          EntryErrorStays(entries, i + 1, n);
          return Err(Duplicate);
        }
        seen := seen + {e.aid};
      }
    }
    r := BuildTree(h, toDay, entries);
  }

  // ---- proofs of a built tree ----

  function SiblingIndex(i: nat): nat { if i % 2 == 1 then i - 1 else i + 1 }

  function SiblingAt(row: seq<Node>, i: nat): Step
    requires i < |row| && |row| % 2 == 0 && row[SiblingIndex(i)].sum <= MAX_SUM
  {
    var n := row[SiblingIndex(i)];
    Step(n.hash, n.sum, if i % 2 == 1 then LEFT else RIGHT)
  }

  /** Every row but the last is even, and no sum is over the maximum. */
  predicate Sound(levels: seq<seq<Node>>)
  {
    && |levels| > 0
    && (forall k | 0 <= k < |levels| :: forall n | n in levels[k] :: n.sum <= MAX_SUM)
    && (forall k | 0 <= k < |levels| - 1 :: |levels[k]| % 2 == 0 && |levels[k + 1]| == |levels[k]| / 2)
  }

  function Path(levels: seq<seq<Node>>, i: nat): (p: seq<Step>)
    requires Sound(levels) && i < |levels[0]|
    ensures |p| == |levels| - 1
  {
    if |levels| == 1 then [] else
    assert forall k | 0 <= k < |levels[1..]| :: levels[1..][k] == levels[k + 1];
    assert levels[0][SiblingIndex(i)] in levels[0];
    [SiblingAt(levels[0], i)] + Path(levels[1..], i / 2)
  }

  function ProofAt(t: Tree, i: nat): Proof
    requires Sound(t.levels) && i < |t.entries| == |t.levels[0]|
  {
    var e := t.entries[i];
    Proof(e.aid, t.toDay, e.balance, e.salt, Path(t.levels, i))
  }

  lemma {:induction false} PathStep(levels: seq<seq<Node>>, i: nat)
    requires Sound(levels) && |levels| > 1 && i < |levels[0]|
    ensures Sound(levels[1..]) && i / 2 < |levels[1]| == |levels[1..][0]|
    ensures SiblingIndex(i) < |levels[0]| && levels[0][SiblingIndex(i)].sum <= MAX_SUM
    ensures Path(levels, i) == [SiblingAt(levels[0], i)] + Path(levels[1..], i / 2)
  {
    assert forall k | 0 <= k < |levels[1..]| :: levels[1..][k] == levels[k + 1];
    assert levels[0][SiblingIndex(i)] in levels[0];
  }

  method MakeProof(t: Tree, aid: Text) returns (r: Option<Proof>)
    requires Sound(t.levels) && |t.entries| == |t.levels[0]|
    requires forall a | a in t.pos :: t.pos[a] < |t.entries|
    ensures r == if aid in t.pos && aid != [] then Some(ProofAt(t, t.pos[aid])) else None
  {
    if aid !in t.pos || aid == [] {
      return None;
    }
    var i := t.pos[aid];
    var e := t.entries[i];
    var path := MakePath(t.levels, i);
    r := Some(Proof(e.aid, t.toDay, e.balance, e.salt, path));
  }

  method MakePath(levels: seq<seq<Node>>, i: nat) returns (path: seq<Step>)
    requires Sound(levels) && i < |levels[0]|
    ensures path == Path(levels, i)
  {
    path := [];
    var at: nat := i;
    for lvl := 0 to |levels| - 1
      invariant at < |levels[lvl]| && Sound(levels[lvl..])
      invariant path + Path(levels[lvl..], at) == Path(levels, i)
    {
      PathStep(levels[lvl..], at);
      assert levels[lvl..][0] == levels[lvl] && levels[lvl..][1..] == levels[lvl + 1..];
      var sib, side := at + 1, RIGHT;
      if at % 2 == 1 {
        sib, side := at - 1, LEFT;
      }
      var n := levels[lvl][sib];
      path := path + [Step(n.hash, n.sum, side)];
      at := at / 2;
    }
    assert path + [] == path;
  }

  /** Where the path of leaf i passes level k. */
  function Ancestor(i: nat, k: nat): nat
  {
    if k == 0 then i else Ancestor(i, k - 1) / 2
  }

  lemma {:induction false} PathAt(levels: seq<seq<Node>>, i: nat, k: nat)
    requires Sound(levels) && i < |levels[0]| && k < |levels| - 1
    ensures Ancestor(i, k) < |levels[k]| && SiblingIndex(Ancestor(i, k)) < |levels[k]|
    ensures levels[k][SiblingIndex(Ancestor(i, k))].sum <= MAX_SUM
    ensures Path(levels, i)[k] == SiblingAt(levels[k], Ancestor(i, k))
    decreases k
  {
    PathStep(levels, i);
    if k > 0 {
      PathAt(levels[1..], i / 2, k - 1);
      AncestorStep(i, k);
    }
  }

  lemma {:induction false} AncestorStep(i: nat, k: nat)
    requires k > 0
    ensures Ancestor(i, k) == Ancestor(i / 2, k - 1)
    decreases k
  {
    if k > 1 { AncestorStep(i, k - 1); }
  }

  /** Every level is that of the pairs of the level below. */
  predicate Layered(h: Hashes, ls: seq<seq<Node>>)
  {
    forall k | 0 <= k < |ls| - 1 :: ls[k + 1] == Pairs(h, ls[k])
  }

  /** ls are the levels above row, up to a single node that holds its total. */
  ghost predicate LevelsOf(h: Hashes, row: seq<Node>, ls: seq<seq<Node>>)
  {
    && Sound(ls) && Layered(h, ls) && ls[0] == row && Pow2(|ls| - 1) == |row|
    && ls[|ls| - 1] != [] && ls[|ls| - 1][0].sum == Total(row)
  }

  lemma {:induction false} LevelsAreSound(h: Hashes, row: seq<Node>)
    requires IsPow2(|row|) && Total(row) <= MAX_SUM
    ensures LevelsOf(h, row, Levels(h, row))
    decreases |row|
  {
    if |row| == 1 {
      OneLevel(h, row);
    } else {
      TotalOfPairs(h, row);
      LevelsAreSound(h, Pairs(h, row));
      LevelUp(h, row, Levels(h, Pairs(h, row)));
    }
  }

  lemma {:induction false} OneLevel(h: Hashes, row: seq<Node>)
    requires |row| == 1 && Total(row) <= MAX_SUM
    ensures LevelsOf(h, row, [row])
  {
    assert Total(row) == row[0].sum + Total([]);
  }

  lemma {:induction false} LevelUp(h: Hashes, row: seq<Node>, up: seq<seq<Node>>)
    requires |row| % 2 == 0 && Total(row) <= MAX_SUM
    requires LevelsOf(h, Pairs(h, row), up) && Total(Pairs(h, row)) == Total(row)
    ensures LevelsOf(h, row, [row] + up)
  {
    var ls := [row] + up;
    AllWithinTotal(row);
    assert forall k | 1 <= k < |ls| :: ls[k] == up[k - 1];
    forall k | 0 <= k < |ls| - 1 ensures ls[k + 1] == Pairs(h, ls[k]) && |ls[k]| % 2 == 0 {
      if k > 0 { assert ls[k + 1] == up[k] && ls[k] == up[k - 1]; }
    }
    assert Pow2(|ls| - 1) == 2 * Pow2(|up| - 1);
  }

  lemma {:induction false} AllWithinTotal(row: seq<Node>)
    ensures forall n | n in row :: n.sum <= Total(row)
  {
    forall n | n in row ensures n.sum <= Total(row) {
      var i :| 0 <= i < |row| && row[i] == n;
      ElementWithinTotal(row, i);
    }
  }

  lemma {:induction false} ElementWithinTotal(row: seq<Node>, i: nat)
    requires i < |row|
    ensures row[i].sum <= Total(row)
  {
    if i > 0 { ElementWithinTotal(row[1..], i - 1); }
  }

  lemma {:induction false} FoldFollowsTree(h: Hashes, t: Tree, i: nat, k: nat)
    requires t == TreeOf(h, t.toDay, t.entries) && IsPow2(|t.entries|) && i < |t.entries|
    requires Total(t.levels[0]) <= MAX_SUM && Utf8.Valid(t.entries[i].aid)
    requires k < |t.levels|
    ensures Sound(t.levels) && Ancestor(i, k) < |t.levels[k]|
    ensures FoldTo(h, ProofAt(t, i), k) == Ok(t.levels[k][Ancestor(i, k)])
    decreases k
  {
    var row := LeafNodes(h, t.toDay, t.entries);
    LevelsAreSound(h, row);
    if k > 0 {
      FoldFollowsTree(h, t, i, k - 1);
      LevelTotal(h, row, k - 1);
      assert t.levels[k - 1 + 1] == Pairs(h, t.levels[k - 1]);
      PathClimbs(h, t.levels, i, k);
    }
  }

  lemma {:induction false} PathClimbs(h: Hashes, levels: seq<seq<Node>>, i: nat, k: nat)
    requires Sound(levels) && i < |levels[0]| && 0 < k < |levels|
    requires levels[k] == Pairs(h, levels[k - 1]) && Total(levels[k - 1]) <= MAX_SUM
    ensures Ancestor(i, k - 1) < |levels[k - 1]| && Ancestor(i, k) < |levels[k]|
    ensures Climb(h, levels[k - 1][Ancestor(i, k - 1)], Path(levels, i)[k - 1]) == Ok(levels[k][Ancestor(i, k)])
  {
    var a := Ancestor(i, k - 1);
    PathAt(levels, i, k - 1);
    PairWithinTotal(levels[k - 1], a / 2 * 2);
    ClimbToParent(h, levels[k - 1], a);
  }

  lemma {:induction false} ClimbToParent(h: Hashes, row: seq<Node>, i: nat)
    requires i < |row| && |row| % 2 == 0 && row[i].sum + row[SiblingIndex(i)].sum <= MAX_SUM
    ensures Climb(h, row[i], SiblingAt(row, i)) == Ok(Pairs(h, row)[i / 2])
  {
    assert Pairs(h, row)[i / 2] == Parent(h, row[2 * (i / 2)], row[2 * (i / 2) + 1]);
  }

  lemma {:induction false} LevelTotal(h: Hashes, row: seq<Node>, k: nat)
    requires IsPow2(|row|) && k < |Levels(h, row)|
    ensures Total(Levels(h, row)[k]) == Total(row)
    decreases k
  {
    if k > 0 {
      TotalOfPairs(h, row);
      LevelTotal(h, Pairs(h, row), k - 1);
    }
  }

  lemma {:induction false} PositionsFind(entries: seq<Entry>, n: nat, a: Text)
    requires n <= |entries|
    ensures a in Positions(entries, n) <==> a != [] && exists i | 0 <= i < n :: entries[i].aid == a
    ensures a in Positions(entries, n) ==> Positions(entries, n)[a] < n && entries[Positions(entries, n)[a]].aid == a
  {
    if n > 0 { PositionsFind(entries, n - 1, a); }
  }

  lemma {:induction false} DepthRange(k: nat)
    requires MIN_LEAVES <= Pow2(k) <= MAX_LEAVES
    ensures MIN_DEPTH <= k <= MAX_DEPTH
  {
    assert Pow2(4) == 16 && Pow2(3) == 8;
    if k < 4 { Pow2Grows(k, 3); }
    if k > 32 {
      Pow2Grows(33, k);
      Pow2Of32();
    }
  }

  lemma {:induction false} OwedConcat(a: seq<Leaf>, b: seq<Leaf>)
    ensures Owed(a + b) == Owed(a) + Owed(b)
  {
    if a == [] {
      assert a + b == b;
    } else {
      OwedConcat(a[1..], b);
      assert (a + b)[1..] == a[1..] + b;
    }
  }

  lemma {:induction false} PadsOweNothing(n: nat)
    ensures Owed(Pads(n)) == 0
  {
    if n > 0 {
      PadsOweNothing(n - 1);
      assert Pads(n)[1..] == Pads(n - 1);
    }
  }

  lemma {:induction false} PaddedIsDistinct(leaves: seq<Leaf>)
    requires GoodAccounts(leaves)
    ensures Distinct(Padded(leaves)) && Owed(Padded(leaves)) == Owed(leaves)
  {
    OwedConcat(leaves, Pads(Excess(|leaves|)));
    PadsOweNothing(Excess(|leaves|));
  }

  /** The order Build arrives at: the accounts once each, the rest padding, in 16 to 2^32 places. */
  lemma {:induction false} OrderIsPermutation(leaves: seq<Leaf>, data: Bytes)
    requires Ordered(leaves, data).Ok?
    ensures var es := Ordered(leaves, data).value;
      && GoodAccounts(leaves)
      && multiset(Accounts(es)) == multiset(leaves) + multiset(Pads(Excess(|leaves|)))
      && Owed(Accounts(es)) == Owed(leaves)
      && Distinct(Accounts(es))
      && MIN_LEAVES <= |es| <= MAX_LEAVES && |leaves| <= |es| && (|es| == MIN_LEAVES || |es| / 2 < |leaves|)
  {
    NoAccountError(leaves, |leaves|);
    assert leaves[..|leaves|] == leaves;
    DoubledSize(MIN_LEAVES, |leaves|);
    PaddedIsDistinct(leaves);
    ShuffleKeeps(Padded(leaves), TreeSize(|leaves|) - 1, data);
  }

  lemma {:induction false} NoEntryError(entries: seq<Entry>, n: nat)
    requires n <= |entries| && Distinct(Accounts(entries))
    ensures EntryError(entries, n).None?
  {
    if n > 0 {
      NoEntryError(entries, n - 1);
      assert Accounts(entries)[n - 1].aid == entries[n - 1].aid;
      assert forall j | 0 <= j < n :: Accounts(entries)[j].aid == entries[j].aid;
    }
  }

  lemma {:induction false} LevelsShape(h: Hashes, row: seq<Node>)
    requires IsPow2(|row|) && MIN_LEAVES <= |row| <= MAX_LEAVES && Total(row) <= MAX_SUM
    ensures var ls := Levels(h, row);
      Sound(ls) && |ls[|ls| - 1]| == 1 && ls[|ls| - 1][0].sum == Total(row) && MIN_DEPTH <= |ls| - 1 <= MAX_DEPTH
  {
    LevelsAreSound(h, row);
    DepthRange(|Levels(h, row)| - 1);
  }

  lemma {:induction false} TreeShape(h: Hashes, toDay: u64, entries: seq<Entry>)
    requires IsPow2(|entries|) && MIN_LEAVES <= |entries| <= MAX_LEAVES && Owed(Accounts(entries)) <= MAX_SUM
    ensures var t := TreeOf(h, toDay, entries);
      && t.Rooted() && Sound(t.levels) && |t.levels[0]| == |entries|
      && t.Outstanding() == Owed(Accounts(entries))
      && MIN_DEPTH <= t.Depth() <= MAX_DEPTH
  {
    OwedIsTotal(h, toDay, entries);
    LevelsShape(h, LeafNodes(h, toDay, entries));
  }

  // ---- the root and the positions, from above ----

  /** The node over some entries, by halves: what the root commits to, without levels. */
  function Over(h: Hashes, toDay: u64, es: seq<Entry>): Node
    requires es != []
    decreases |es|
  {
    if |es| == 1 then Node(h(LeafAt(es[0].aid, toDay, es[0].balance, es[0].salt)), es[0].balance)
    else
      var l, r := Over(h, toDay, es[..|es| / 2]), Over(h, toDay, es[|es| / 2..]);
      Node(h(NodeAt(l, r)), l.sum + r.sum)
  }

  lemma {:induction false} OverTwo(h: Hashes, toDay: u64, es: seq<Entry>)
    requires |es| == 2
    ensures [Over(h, toDay, es)] == Pairs(h, LeafNodes(h, toDay, es))
  {
    assert es[..1] == [es[0]] && es[1..] == [es[1]];
    assert LeafNodes(h, toDay, es)[2 * 0] == Over(h, toDay, [es[0]]);
    assert LeafNodes(h, toDay, es)[2 * 0 + 1] == Over(h, toDay, [es[1]]);
  }

  lemma {:induction false} PairsOfHalves(h: Hashes, row: seq<Node>, m: nat)
    requires m <= |row| && m % 2 == 0
    ensures Pairs(h, row)[..m / 2] == Pairs(h, row[..m]) && Pairs(h, row)[m / 2..] == Pairs(h, row[m..])
  {
  }

  lemma {:induction false} TopOfHalves(h: Hashes, row: seq<Node>)
    requires IsPow2(|row|) && |row| > 1
    ensures Top(h, row) == Parent(h, Top(h, row[..|row| / 2]), Top(h, row[|row| / 2..]))
    decreases |row|
  {
    var m := |row| / 2;
    if m > 1 {
      PairsOfHalves(h, row, m);
      TopOfHalves(h, Pairs(h, row));
    } else {
      assert Pairs(h, row) == [Parent(h, row[2 * 0], row[2 * 0 + 1])];
    }
  }

  /** The single node of the last level. */
  function Top(h: Hashes, row: seq<Node>): Node
    requires row != []
    decreases |row|
  {
    if |row| == 1 then row[0] else Top(h, Pairs(h, row))
  }

  lemma {:induction false} LastLevel(h: Hashes, row: seq<Node>)
    requires row != []
    ensures Levels(h, row)[|Levels(h, row)| - 1] == [Top(h, row)]
    decreases |row|
  {
    if |row| > 1 { LastLevel(h, Pairs(h, row)); }
  }

  lemma {:induction false} OverIsTop(h: Hashes, toDay: u64, es: seq<Entry>)
    requires IsPow2(|es|)
    ensures Over(h, toDay, es) == Top(h, LeafNodes(h, toDay, es))
    decreases |es|
  {
    var row, m := LeafNodes(h, toDay, es), |es| / 2;
    if |es| > 1 {
      OverIsTop(h, toDay, es[..m]);
      OverIsTop(h, toDay, es[m..]);
      assert LeafNodes(h, toDay, es[..m]) == row[..m] && LeafNodes(h, toDay, es[m..]) == row[m..];
      TopOfHalves(h, row);
    }
  }

  /** The root and the outstanding are those of the entries taken by halves, the left half hashed first. */
  lemma {:induction false} RootByHalves(h: Hashes, leaves: seq<Leaf>, toDay: u64, data: Bytes)
    requires BuildFrom(h, leaves, toDay, data).Ok?
    ensures var t := BuildFrom(h, leaves, toDay, data).value;
      t.Rooted() && t.toDay == toDay && t.entries != [] && Node(t.Root(), t.Outstanding()) == Over(h, toDay, t.entries)
  {
    OrderIsPermutation(leaves, data);
    var es := Ordered(leaves, data).value;
    LastLevel(h, LeafNodes(h, toDay, es));
    OverIsTop(h, toDay, es);
  }

  /** The number whose binary digits the sides of a path are, lowest first: 1 where the sibling is on the left. */
  function Spelled(path: seq<Step>): nat
  {
    if path == [] then 0 else (if path[0].side == 'L' as int then 1 else 0) + 2 * Spelled(path[1..])
  }

  /** The sides spell the position of the leaf. */
  lemma {:induction false} SidesSpellThePosition(levels: seq<seq<Node>>, i: nat)
    requires Sound(levels) && i < |levels[0]| && |levels[|levels| - 1]| == 1
    ensures Spelled(Path(levels, i)) == i && forall s | s in Path(levels, i) :: s.side == 'L' as int || s.side == 'R' as int
    decreases |levels|
  {
    if |levels| > 1 {
      PathStep(levels, i);
      assert levels[1..][|levels| - 2] == levels[|levels| - 1];
      SidesSpellThePosition(levels[1..], i / 2);
      assert Path(levels, i)[1..] == Path(levels[1..], i / 2);
    }
  }

  /** A built tree holds every account once; its outstanding is the sum of all balances, at most 2^63-1. */
  lemma {:induction false} BuildCountsEveryAccount(h: Hashes, leaves: seq<Leaf>, toDay: u64, data: Bytes)
    requires BuildFrom(h, leaves, toDay, data).Ok?
    ensures var t := BuildFrom(h, leaves, toDay, data).value;
      && multiset(Accounts(t.entries)) == multiset(leaves) + multiset(Pads(Excess(|leaves|)))
      && t.Rooted() && t.Outstanding() == Owed(leaves) <= MAX_SUM
      && MIN_DEPTH <= t.Depth() <= MAX_DEPTH
  {
    OrderIsPermutation(leaves, data);
    TreeShape(h, toDay, Ordered(leaves, data).value);
  }

  /** The total alone decides: no partial sum can overflow when it fits, and one does when it does not fit. */
  lemma {:induction false} BuildOverflowsExactlyOnTotal(h: Hashes, leaves: seq<Leaf>, toDay: u64, data: Bytes)
    requires Ordered(leaves, data).Ok? && forall l | l in leaves :: Utf8.Valid(l.aid)
    ensures BuildFrom(h, leaves, toDay, data) == Err(Overflow) <==> Owed(leaves) > MAX_SUM
    ensures BuildFrom(h, leaves, toDay, data).Ok? <==> Owed(leaves) <= MAX_SUM
  {
    OrderIsPermutation(leaves, data);
    var es := Ordered(leaves, data).value;
    forall e | e in es ensures Utf8.Valid(e.aid) {
      var i :| 0 <= i < |es| && es[i] == e;
      assert Accounts(es)[i] in multiset(Accounts(es));
      assert e.aid == Accounts(es)[i].aid;
    }
  }

  /** Building succeeds exactly for accounts with valid, different, non-empty AIDs whose total fits, given enough bytes. */
  lemma {:induction false} BuildExactlyWhen(h: Hashes, leaves: seq<Leaf>, toDay: u64, data: Bytes)
    ensures BuildFrom(h, leaves, toDay, data).Ok? <==>
      && |leaves| <= 0x1_0000_0000
      && (forall i | 0 <= i < |leaves| :: leaves[i].aid != [] && Utf8.Valid(leaves[i].aid))
      && (forall i, j | 0 <= i < j < |leaves| :: leaves[i].aid != leaves[j].aid)
      && Owed(leaves) <= 0x7fff_ffff_ffff_ffff
      && BytesSuffice(|leaves|, data)
  {
    NoAccountError(leaves, |leaves|);
    assert leaves[..|leaves|] == leaves;
    if Ordered(leaves, data).Ok? {
      OrderIsPermutation(leaves, data);
      var es := Ordered(leaves, data).value;
      if forall i | 0 <= i < |leaves| :: Utf8.Valid(leaves[i].aid) {
        BuildOverflowsExactlyOnTotal(h, leaves, toDay, data);
      } else {
        var i :| 0 <= i < |leaves| && !Utf8.Valid(leaves[i].aid);
        EntryOf(leaves, es, i);
      }
    }
    if |leaves| <= MAX_LEAVES { EnoughBytes(leaves, data); }
  }

  lemma {:induction false} EntryOf(leaves: seq<Leaf>, es: seq<Entry>, i: nat)
    requires i < |leaves| && multiset(Accounts(es)) == multiset(leaves) + multiset(Pads(Excess(|leaves|)))
    ensures exists e | e in es :: e.aid == leaves[i].aid
  {
    assert leaves[i] in multiset(leaves);
    assert leaves[i] in multiset(Accounts(es));
    var k :| 0 <= k < |es| && Accounts(es)[k] == leaves[i];
    assert es[k] in es && es[k].aid == leaves[i].aid;
  }

  /** The data hold a draw for every place but the first, and then a salt for every place. */
  predicate BytesSuffice(n: nat, data: Bytes)
    requires n <= MAX_LEAVES
  {
    TreeSizeIsLeast(n, 16);
    var draws := DrawAll(TreeSize(n) - 1, data);
    draws.Some? && SALT_SIZE * TreeSize(n) <= |draws.value.1|
  }

  lemma {:induction false} EnoughBytes(leaves: seq<Leaf>, data: Bytes)
    requires |leaves| <= MAX_LEAVES
    ensures 0 < |Padded(leaves)| < TWO_64 && (Randomized(Padded(leaves), data).Some? <==> BytesSuffice(|leaves|, data))
  {
    DoubledSize(MIN_LEAVES, |leaves|);
    ShuffleIsSwaps(Padded(leaves), TreeSize(|leaves|) - 1, data);
  }

  /** Rebuilding succeeds exactly for a power of two of entries, padding at 0, different accounts, and a total that fits. */
  lemma {:induction false} RebuildExactlyWhen(h: Hashes, toDay: u64, entries: seq<Entry>)
    ensures RebuildFrom(h, toDay, entries).Ok? <==>
      && IsPow2(|entries|) && 16 <= |entries| <= 0x1_0000_0000
      && (forall e | e in entries :: Utf8.Valid(e.aid) && (e.aid == [] ==> e.balance == 0))
      && (forall i, j | 0 <= i < j < |entries| :: entries[i].aid == entries[j].aid ==> entries[i].aid == [])
      && Owed(Accounts(entries)) <= 0x7fff_ffff_ffff_ffff
  {
    EntriesExactly(entries, |entries|);
    if forall i | 0 <= i < |entries| :: EntryOk(entries, i) {
      forall e | e in entries ensures e.aid == [] ==> e.balance == 0 {
        var i :| 0 <= i < |entries| && entries[i] == e;
        assert EntryOk(entries, i);
      }
      forall i, j | 0 <= i < j < |entries| && entries[i].aid == entries[j].aid ensures entries[i].aid == [] {
        assert EntryOk(entries, j);
      }
    }
  }

  predicate EntryOk(entries: seq<Entry>, i: nat)
    requires i < |entries|
  {
    if entries[i].Padding() then entries[i].balance == 0 else forall j | 0 <= j < i :: entries[j].aid != entries[i].aid
  }

  lemma {:induction false} EntriesExactly(entries: seq<Entry>, n: nat)
    requires n <= |entries|
    ensures EntryError(entries, n).None? <==> forall i | 0 <= i < n :: EntryOk(entries, i)
  {
    if n > 0 {
      EntriesExactly(entries, n - 1);
      assert EntryError(entries, n).None? <==> EntryError(entries, n - 1).None? && EntryOk(entries, n - 1);
    }
  }

  /** What a hub stored rebuilds to the tree it published. */
  lemma {:induction false} RebuildGivesTheSameTree(h: Hashes, leaves: seq<Leaf>, toDay: u64, data: Bytes)
    requires BuildFrom(h, leaves, toDay, data).Ok?
    ensures var t := BuildFrom(h, leaves, toDay, data).value; RebuildFrom(h, t.toDay, t.entries) == Ok(t)
  {
    OrderIsPermutation(leaves, data);
    NoEntryError(Ordered(leaves, data).value, |Ordered(leaves, data).value|);
  }

  /** Every account of a built tree gets a proof of exactly its balance, and the proof verifies. */
  lemma {:induction false} EveryAccountProves(h: Hashes, leaves: seq<Leaf>, toDay: u64, data: Bytes, l: Leaf)
    requires BuildFrom(h, leaves, toDay, data).Ok? && l in leaves
    ensures var t := BuildFrom(h, leaves, toDay, data).value;
      && t.Rooted() && t.Outstanding() <= MAX_SUM && Sound(t.levels)
      && l.aid in t.pos && t.pos[l.aid] < |t.entries| == |t.levels[0]|
      && ProofAt(t, t.pos[l.aid]).aid == l.aid && ProofAt(t, t.pos[l.aid]).balance == l.balance
      && Accepts(h, ProofAt(t, t.pos[l.aid]), t.Root(), t.Outstanding(), t.Depth())
  {
    OrderIsPermutation(leaves, data);
    var es := Ordered(leaves, data).value;
    TreeShape(h, toDay, es);
    var i := PlaceOf(leaves, es, l);
    PositionsFind(es, |es|, l.aid);
    var at := Positions(es, |es|)[l.aid];
    assert Accounts(es)[at].aid == Accounts(es)[i].aid == l.aid;
    ProofVerifies(h, toDay, es, at);
  }

  lemma {:induction false} PlaceOf(leaves: seq<Leaf>, es: seq<Entry>, l: Leaf) returns (i: nat)
    requires l in leaves && GoodAccounts(leaves)
    requires multiset(Accounts(es)) == multiset(leaves) + multiset(Pads(Excess(|leaves|)))
    ensures i < |es| && es[i].Account() == l && l.aid != []
  {
    assert l in multiset(leaves);
    assert l in multiset(Accounts(es));
    i :| 0 <= i < |es| && Accounts(es)[i] == l;
  }

  lemma {:induction false} ProofVerifies(h: Hashes, toDay: u64, es: seq<Entry>, i: nat)
    requires IsPow2(|es|) && MIN_LEAVES <= |es| <= MAX_LEAVES && Owed(Accounts(es)) <= MAX_SUM
    requires i < |es| && es[i].aid != [] && Utf8.Valid(es[i].aid)
    ensures var t := TreeOf(h, toDay, es);
      && t.Rooted() && Sound(t.levels) && |t.levels[0]| == |es| && t.Outstanding() <= MAX_SUM
      && Accepts(h, ProofAt(t, i), t.Root(), t.Outstanding(), t.Depth())
  {
    var t := TreeOf(h, toDay, es);
    TreeShape(h, toDay, es);
    OwedIsTotal(h, toDay, es);
    FoldFollowsTree(h, t, i, t.Depth());
  }

  // ---- down to SHA-256 ----

  predicate SumsFit(x: Hashed)
  {
    x.NodeAt? ==> x.left.sum <= MAX_SUM && x.right.sum <= MAX_SUM
  }

  /** Different things hashed are different byte strings: leaves and nodes never share a preimage either. */
  lemma {:induction false} InputInjective(x: Hashed, y: Hashed)
    requires SumsFit(x) && SumsFit(y) && Input(x) == Input(y)
    ensures x == y
  {
    match (x, y)
    case (LeafAt(a, d, b, s), LeafAt(a', d', b', s')) => LeafInputInjective(a, d, b, s, a', d', b', s');
    case (NodeAt(l, r), NodeAt(l', r')) => NodeInputInjective(l, r, l', r');
    case (LeafAt(a, d, b, s), NodeAt(l, r)) => LabelsDiffer(a, d, b, s, l, r);
    case (NodeAt(l, r), LeafAt(a, d, b, s)) => LabelsDiffer(a, d, b, s, l, r);
  }

  lemma {:induction false} LabelsDiffer(a: Text, d: u64, b: u64, s: Salt, l: Node, r: Node)
    ensures LeafInput(a, d, b, s) != NodeInput(l, r)
  {
    assert LeafInput(a, d, b, s)[10] == 'l' as int;
    assert NodeInput(l, r)[10] == 'n' as int;
  }

  lemma {:induction false} HashedSumsFit(h: Hashes, p: Proof, k: nat)
    requires Reaches(h, p, k)
    ensures SumsFit(HashedAt(h, p, k))
  {
  }

  /** The same bound over SHA-256: otherwise two different byte strings hashed by the checks collide. */
  lemma {:induction false} PublisherBoundOverSha(sha: Bytes -> Digest, ps: seq<Proof>, root: Digest, outstanding: u64, depth: nat)
    requires DistinctAids(ps)
    requires forall p | p in ps :: Accepts(OverSha(sha), p, root, outstanding, depth)
    requires Balances(ps) > outstanding
    ensures exists p, q, k: nat ::
      && p in ps && q in ps && Reaches(OverSha(sha), p, k) && Reaches(OverSha(sha), q, k)
      && Input(HashedAt(OverSha(sha), p, k)) != Input(HashedAt(OverSha(sha), q, k))
      && sha(Input(HashedAt(OverSha(sha), p, k))) == sha(Input(HashedAt(OverSha(sha), q, k)))
  {
    var h := OverSha(sha);
    PublisherCannotHideLiabilities(h, ps, root, outstanding, depth);
    var p, q, k: nat :|
      && p in ps && q in ps && k <= depth && Reaches(h, p, k) && Reaches(h, q, k)
      && HashedAt(h, p, k) != HashedAt(h, q, k) && h(HashedAt(h, p, k)) == h(HashedAt(h, q, k));
    HashedSumsFit(h, p, k);
    HashedSumsFit(h, q, k);
    if Input(HashedAt(h, p, k)) == Input(HashedAt(h, q, k)) {
      InputInjective(HashedAt(h, p, k), HashedAt(h, q, k));
    }
    assert sha(Input(HashedAt(h, p, k))) == sha(Input(HashedAt(h, q, k)));
  }
}
