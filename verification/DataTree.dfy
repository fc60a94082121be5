/** The data tree of the gNMI server, as a map from absolute node paths to node values.

    The tree library the server uses is represented by the operations below: looking a
    subtree up, removing it, grafting one in (which creates the missing ancestors), and
    finding the nodes a path pattern selects.  Subtrees keep their absolute paths. */
module DataTree {

  datatype Option<+T> = None | Some(value: T)

  /** One path element: the node name and its rendered list keys, "" for a node that is not
      a list entry, as in `interface` and `[name=eth0]`. */
  datatype Elem = Elem(name: string, keys: string)

  type Path = seq<Elem>

  datatype Value = Container | Leaf(text: string)

  type Tree = map<Path, Value>

  const EMPTY_ROOT: Tree := map[[] := Container]

  /** `k` is `p` or a descendant of `p`. */
  predicate Under(p: Path, k: Path) {
    p <= k
  }

  /** Neither path is the other or an ancestor of the other. */
  predicate Independent(p: Path, q: Path) {
    !Under(p, q) && !Under(q, p)
  }

  function Parent(p: Path): Path
    requires p != []
  {
    p[..|p| - 1]
  }

  /** The root exists and is a container, and every ancestor of a node exists and is a container. */
  ghost predicate WellFormed(t: Tree) {
    && [] in t && t[[]] == Container
    && forall a, k {:trigger Under(a, k), k in t} ::
      k in t && Under(a, k) && a != k ==> a in t && t[a] == Container
  }

  lemma EmptyRootWellFormed()
    ensures WellFormed(EMPTY_ROOT)
  {
  }

  /** `s` is a subtree rooted at `p`. */
  ghost predicate NodeAt(p: Path, s: Tree) {
    p in s && forall k :: k in s ==> Under(p, k)
  }

  function At(t: Tree, k: Path): Option<Value> {
    if k in t then Some(t[k]) else None
  }

  function AtOption(o: Option<Tree>, k: Path): Option<Value> {
    if o.Some? then At(o.value, k) else None
  }

  /** The subtree at `p`, if the node exists. */
  function Subtree(t: Tree, p: Path): Option<Tree> {
    if p in t then Some(map k | k in t && Under(p, k) :: t[k]) else None
  }

  function Prune(t: Tree, p: Path): Tree {
    map k | k in t && !Under(p, k) :: t[k]
  }

  function Ancestors(p: Path): set<Path> {
    set n | 0 <= n < |p| :: p[..n]
  }

  /** The ancestors of `p`, as containers. */
  function Spine(p: Path): Tree {
    map k | k in Ancestors(p) :: Container
  }

  /** Merges the subtree `s` in at `p`; missing ancestors are created. */
  function Graft(t: Tree, p: Path, s: Tree): Tree {
    Spine(p) + t + s
  }

  /** Replaces whatever is at `p`; no node at all removes it. */
  function Put(t: Tree, p: Path, s: Option<Tree>): Tree {
    match s
    case None => Prune(t, p)
    case Some(node) => Graft(Prune(t, p), p, node)
  }

  lemma SpineKeys(p: Path, k: Path)
    ensures k in Spine(p) <==> Under(k, p) && k != p
  {
    if Under(k, p) && k != p {
      assert k == p[..|k|];
    }
  }

  lemma TreesEqual(t: Tree, u: Tree)
    requires forall k :: At(t, k) == At(u, k)
    ensures t == u
  {
    assert forall k :: k in t <==> At(t, k).Some?;
    assert forall k :: k in u <==> At(u, k).Some?;
    forall k | k in t
      ensures k in u && t[k] == u[k]
    {
      assert At(t, k) == At(u, k);
    }
    assert t.Keys == u.Keys;
  }

  /** What a node lookup gives after `Put`. */
  lemma PutAt(t: Tree, p: Path, s: Option<Tree>, k: Path)
    requires s.Some? ==> NodeAt(p, s.value)
    ensures At(Put(t, p, s), k) ==
            if Under(p, k) then AtOption(s, k)
            else if s.Some? && Under(k, p) && k !in t then Some(Container)
            else At(t, k)
  {
    SpineKeys(p, k);
  }

  lemma GraftAt(t: Tree, p: Path, s: Tree, k: Path)
    requires NodeAt(p, s)
    ensures At(Graft(t, p, s), k) ==
            if k in s then Some(s[k])
            else if Under(k, p) && k != p && k !in t then Some(Container)
            else At(t, k)
  {
    SpineKeys(p, k);
  }

  lemma SubtreeAt(t: Tree, p: Path, k: Path)
    ensures Subtree(t, p).Some? ==> NodeAt(p, Subtree(t, p).value)
    ensures Under(p, k) && p in t ==> AtOption(Subtree(t, p), k) == At(t, k)
  {
  }

  /** Below an absent node of a well-formed tree there is nothing. */
  lemma AbsentBelow(t: Tree, p: Path, k: Path)
    requires WellFormed(t) && p !in t && Under(p, k)
    ensures k !in t
  {
  }

  /** Writing back the subtree that is there changes nothing. */
  lemma PutSelf(t: Tree, p: Path)
    requires WellFormed(t)
    ensures Put(t, p, Subtree(t, p)) == t
  {
    forall k
      ensures At(Put(t, p, Subtree(t, p)), k) == At(t, k)
    {
      SubtreeAt(t, p, k);
      PutAt(t, p, Subtree(t, p), k);
      if Under(k, p) && k != p && p in t {
        assert k in t;
      }
    }
    TreesEqual(Put(t, p, Subtree(t, p)), t);
  }

  /** A merge is the replacement by the subtree it leaves behind. */
  lemma GraftIsPut(t: Tree, p: Path, s: Tree)
    requires NodeAt(p, s)
    ensures Subtree(Graft(t, p, s), p).Some?
    ensures Graft(t, p, s) == Put(t, p, Subtree(Graft(t, p, s), p))
  {
  }

  /** Edits at independent paths commute. */
  lemma {:induction false} PutsCommute(t: Tree, p: Path, a: Option<Tree>, q: Path, b: Option<Tree>)
    requires Independent(p, q)
    requires a.Some? ==> NodeAt(p, a.value)
    requires b.Some? ==> NodeAt(q, b.value)
    ensures Put(Put(t, p, a), q, b) == Put(Put(t, q, b), p, a)
  {
    forall k
      ensures At(Put(Put(t, p, a), q, b), k) == At(Put(Put(t, q, b), p, a), k)
    {
      PutAt(t, p, a, k);
      PutAt(Put(t, p, a), q, b, k);
      PutAt(t, q, b, k);
      PutAt(Put(t, q, b), p, a, k);
    }
    TreesEqual(Put(Put(t, p, a), q, b), Put(Put(t, q, b), p, a));
  }

  // ----- Differences --------------------------------------------------------------------

  /** `ps` is `s` in some order, without repetition. */
  ghost predicate Lists(ps: seq<Path>, s: set<Path>) {
    && (forall p :: p in ps <==> p in s)
    && (forall i, j | 0 <= i < j < |ps| :: ps[i] != ps[j])
  }

  /** Some list of a set. */
  ghost function Listed(s: set<Path>): (ps: seq<Path>)
    ensures Lists(ps, s)
  {
    if s == {} then []
    else
      var p :| p in s;
      [p] + Listed(s - {p})
  }

  /** Lists a set in some order. */
  method Enumerate(s: set<Path>) returns (ps: seq<Path>)
    ensures Lists(ps, s)
  {
    ps := [];
    var todo := s;
    while todo != {}
      invariant todo <= s && Lists(ps, s - todo)
      decreases todo
    {
      var p :| p in todo;
      ps := ps + [p];
      todo := todo - {p};
    }
  }

  function Created(t: Tree, u: Tree): set<Path> {
    set k | k in u && k !in t
  }

  function Replaced(t: Tree, u: Tree): set<Path> {
    set k | k in u && k in t && t[k] != u[k]
  }

  /** The node at `p` and all its descendants. */
  function Below(t: Tree, p: Path): set<Path> {
    set k | k in t && Under(p, k)
  }

  /** Removing a node.  A refused removal leaves it, and so does one of the root, which has no
      parent to be removed from. */
  function Removed(t: Tree, p: Path, refused: bool): Tree {
    if refused || p == [] then t else Prune(t, p)
  }

  // ----- Patterns ---------------------------------------------------------------------

  /** An element of a request path: one exact element, every entry of a list, or `*`. */
  datatype PatElem = Exact(elem: Elem) | AnyKeys(name: string) | Star

  type Pattern = seq<PatElem>

  predicate ElemMatches(pe: PatElem, e: Elem) {
    match pe
    case Exact(x) => x == e
    case AnyKeys(n) => n == e.name
    case Star => true
  }

  predicate Matches(pat: Pattern, p: Path) {
    |pat| == |p| && forall i | 0 <= i < |p| :: ElemMatches(pat[i], p[i])
  }

  function Find(t: Tree, pat: Pattern): set<Path> {
    set p | p in t && Matches(pat, p)
  }

  /** The tree without the nodes `ps` and their descendants. */
  function PruneAll(t: Tree, ps: set<Path>): Tree {
    map k | k in t && !(exists p :: p in ps && Under(p, k)) :: t[k]
  }

  lemma PruneNext(t: Tree, done: set<Path>, p: Path)
    ensures Prune(PruneAll(t, done), p) == PruneAll(t, done + {p})
  {
  }

  predicate IsConcrete(pat: Pattern) {
    forall i | 0 <= i < |pat| :: pat[i].Exact?
  }

  function PathOf(pat: Pattern): Path
    requires IsConcrete(pat)
  {
    seq(|pat|, i requires 0 <= i < |pat| => pat[i].elem)
  }

  /** The pattern that selects `p` and nothing else. */
  function Exactly(p: Path): Pattern {
    seq(|p|, i requires 0 <= i < |p| => Exact(p[i]))
  }

  lemma ExactlyIsConcrete(p: Path)
    ensures IsConcrete(Exactly(p)) && PathOf(Exactly(p)) == p
  {
  }

  /** What a request path finds: an exact element itself, a list without keys all its entries, and
      a wildcard every element, each at its place. */
  lemma FindExactly(t: Tree, pat: Pattern, p: Path)
    ensures p in Find(t, pat) <==>
            && p in t && |p| == |pat|
            && (forall i | 0 <= i < |p| && pat[i].Exact? :: p[i] == pat[i].elem)
            && (forall i | 0 <= i < |p| && pat[i].AnyKeys? :: p[i].name == pat[i].name)
  {
  }

  /** No two different nodes found by one pattern overlap. */
  lemma FoundAreIndependent(pat: Pattern, p: Path, q: Path)
    requires Matches(pat, p) && Matches(pat, q) && p != q
    ensures Independent(p, q)
  {
  }

  /** The tree when the nodes `done` have been deleted through the path `pat`. */
  function DeletedSoFar(t: Tree, pat: Pattern, done: set<Path>): Tree {
    if pat == [] then t else PruneAll(t, done)
  }

  lemma NothingDeleted(t: Tree, pat: Pattern)
    ensures DeletedSoFar(t, pat, {}) == t
  {
  }

  /** The next found node is still there, and deleting it deletes one more. */
  lemma DeletedNext(t: Tree, pat: Pattern, done: set<Path>, p: Path)
    requires done < Find(t, pat) && p in Find(t, pat) && p !in done
    ensures p in DeletedSoFar(t, pat, done)
    ensures Removed(DeletedSoFar(t, pat, done), p, false) == DeletedSoFar(t, pat, done + {p})
  {
    if pat != [] {
      PruneNext(t, done, p);
      forall q | q in done
        ensures !Under(q, p)
      {
        FoundAreIndependent(pat, p, q);
      }
    }
  }

  /** Two patterns that can never select overlapping nodes. */
  predicate PatternsApart(a: Pattern, b: Pattern) {
    exists i | 0 <= i < |a| && i < |b| :: ElemsApart(a[i], b[i])
  }

  predicate ElemsApart(a: PatElem, b: PatElem) {
    match (a, b)
    case (Exact(x), Exact(y)) => x != y
    case (Exact(x), AnyKeys(n)) => x.name != n
    case (AnyKeys(n), Exact(x)) => x.name != n
    case (AnyKeys(n), AnyKeys(m)) => n != m
    case _ => false
  }

  lemma ApartAreIndependent(a: Pattern, b: Pattern, p: Path, q: Path)
    requires PatternsApart(a, b) && Matches(a, p) && Matches(b, q)
    ensures Independent(p, q)
  {
  }

  /** Patterns without wildcards are apart when their paths do not overlap. */
  lemma IndependentAreApart(a: Pattern, b: Pattern)
    requires IsConcrete(a) && IsConcrete(b) && Independent(PathOf(a), PathOf(b))
    ensures PatternsApart(a, b)
  {
    var p, q := PathOf(a), PathOf(b);
    var i :| 0 <= i < |p| && i < |q| && p[i] != q[i];
    assert a[i].elem == p[i] && b[i].elem == q[i];
    assert ElemsApart(a[i], b[i]);
  }
}
