/** The author rewrite of bin/fix-names.py on a mutable document.

    Author elements are objects: the script finds them again by identity
    (`paper.index(author)`, `paper.remove(author)`) and overwrites the text
    of their `last` child in place. A paper element owns a list of children
    that the script edits in place. `TransformPaper` is the body of the
    `for paper in ...` loop; it is proved against the value-level rule
    `AuthorRule.Rewrite`. */
module FixNames {
  import opened Text
  import opened AuthorRule

  /** An `author` element: the text of its `first` and `last` children. */
  class Author {
    var first: Option<string>
    var last: Option<string>

    constructor (first: Option<string>, last: Option<string>)
      ensures this.first == first && this.last == last
    {
      this.first := first;
      this.last := last;
    }

    function Value(): Name
      reads this
    {
      Name(first, last)
    }
  }

  /** A child of a paper element: an author, or anything else (title,
      pages, url, ...), which the script never looks into. */
  datatype Child = AuthorChild(author: Author) | OtherChild(element: string)

  predicate Distinct(s: seq<Author>) {
    forall i, j :: 0 <= i < j < |s| ==> s[i] != s[j]
  }

  function Min(a: int, b: int): int {
    if a < b then a else b
  }

  /** The author children, in document order (`paper.findall("./author")`). */
  function AuthorsIn(cs: seq<Child>): (r: seq<Author>)
    ensures |r| <= |cs|
  {
    if cs == [] then []
    else if cs[0].AuthorChild? then [cs[0].author] + AuthorsIn(cs[1..])
    else AuthorsIn(cs[1..])
  }

  function Objs(cs: seq<Child>): set<Author> {
    set a | a in AuthorsIn(cs)
  }

  /** The value a child list stands for in the current heap. */
  function ViewOf(cs: seq<Child>): seq<Node>
    reads Objs(cs)
  {
    if cs == [] then []
    else if cs[0].AuthorChild? then [AuthorNode(cs[0].author.Value())] + ViewOf(cs[1..])
    else [OtherNode(cs[0].element)] + ViewOf(cs[1..])
  }

  /** A child and a value node are of the same kind; a non-author child is
      its own value. */
  predicate Matches(c: Child, x: Node) {
    match c
    case AuthorChild(_) => x.AuthorNode?
    case OtherChild(e) => x == OtherNode(e)
  }

  predicate Shape(cs: seq<Child>, v: seq<Node>) {
    |cs| == |v| && forall j :: 0 <= j < |cs| ==> Matches(cs[j], v[j])
  }

  /** The child list with every author `a` in `plan` replaced by the
      children `plan[a]`; the loop of TransformPaper keeps the paper equal
      to this, its plan growing by one author per iteration. */
  ghost function Expand(cs: seq<Child>, plan: map<Author, seq<Child>>): seq<Child> {
    if cs == [] then []
    else (if cs[0].AuthorChild? && cs[0].author in plan then plan[cs[0].author] else [cs[0]])
         + Expand(cs[1..], plan)
  }

  class Paper {
    var children: seq<Child>

    /** An element is a child of its parent once. */
    ghost predicate Valid()
      reads this
    {
      Distinct(AuthorsIn(children))
    }

    function AuthorSet(): set<Author>
      reads this
    {
      Objs(children)
    }

    function View(): seq<Node>
      reads this, AuthorSet()
    {
      ViewOf(children)
    }

    /** `paper.index(author)`: the position of the first child that is
        this very element. */
    method IndexOf(a: Author) returns (p: nat)
      requires AuthorChild(a) in children
      ensures p < |children| && children[p] == AuthorChild(a)
      ensures forall j :: 0 <= j < p ==> children[j] != AuthorChild(a)
    {
      p := 0;
      while children[p] != AuthorChild(a)
        invariant p < |children|
        invariant AuthorChild(a) in children[p..]
        invariant forall j :: 0 <= j < p ==> children[j] != AuthorChild(a)
        decreases |children| - p
      {
        assert children[p..] == [children[p]] + children[p + 1..];
        p := p + 1;
      }
    }

    /** `paper.insert(p, c)` for an author element that is not yet a child
        of this paper: a position past the end appends. */
    method Insert(p: nat, c: Child)
      requires c.AuthorChild? ==> c !in children
      modifies this
      ensures children == if p <= |old(children)| then old(children)[..p] + [c] + old(children)[p..]
                          else old(children) + [c]
    {
      if p <= |children| {
        children := children[..p] + [c] + children[p..];
      } else {
        children := children + [c];
      }
    }

    /** `paper.remove(author)`: drops the child that is this very element;
        `p` is where it stood. */
    method Remove(a: Author) returns (ghost p: nat)
      requires AuthorChild(a) in children
      modifies this
      ensures p < |old(children)| && old(children)[p] == AuthorChild(a)
      ensures forall j :: 0 <= j < p ==> old(children)[j] != AuthorChild(a)
      ensures children == old(children)[..p] + old(children)[p + 1..]
    {
      var i := IndexOf(a);
      children := children[..i] + children[i + 1..];
      p := i;
    }
  }

  // Facts about child lists.

  lemma {:induction false} AuthorsInAppend(a: seq<Child>, b: seq<Child>)
    ensures AuthorsIn(a + b) == AuthorsIn(a) + AuthorsIn(b)
  {
    if a == [] {
      assert a + b == b;
    } else {
      assert (a + b)[1..] == a[1..] + b;
      AuthorsInAppend(a[1..], b);
    }
  }

  lemma {:induction false} ViewOfAppend(a: seq<Child>, b: seq<Child>)
    ensures ViewOf(a + b) == ViewOf(a) + ViewOf(b)
  {
    if a == [] {
      assert a + b == b;
    } else {
      assert (a + b)[1..] == a[1..] + b;
      ViewOfAppend(a[1..], b);
    }
  }

  lemma {:induction false} ExpandAppend(a: seq<Child>, b: seq<Child>, plan: map<Author, seq<Child>>)
    ensures Expand(a + b, plan) == Expand(a, plan) + Expand(b, plan)
  {
    if a == [] {
      assert a + b == b;
    } else {
      assert (a + b)[1..] == a[1..] + b;
      ExpandAppend(a[1..], b, plan);
    }
  }

  /** Planning an author that is not in the list changes nothing. */
  lemma {:induction false} ExpandUnplanned(cs: seq<Child>, plan: map<Author, seq<Child>>, x: Author, out: seq<Child>)
    requires x !in AuthorsIn(cs)
    ensures Expand(cs, plan[x := out]) == Expand(cs, plan)
  {
    if cs != [] {
      ExpandUnplanned(cs[1..], plan, x, out);
    }
  }

  lemma {:induction false} ExpandNoKeys(cs: seq<Child>, plan: map<Author, seq<Child>>)
    requires forall a :: a in AuthorsIn(cs) ==> a !in plan
    ensures Expand(cs, plan) == cs
  {
    if cs != [] {
      ExpandNoKeys(cs[1..], plan);
    }
  }

  /** An author that is neither in the list nor in any planned output is
      not in the expansion. */
  lemma {:induction false} ExpandAvoids(cs: seq<Child>, plan: map<Author, seq<Child>>, x: Author)
    requires x !in AuthorsIn(cs)
    requires forall a :: a in plan ==> AuthorChild(x) !in plan[a]
    ensures AuthorChild(x) !in Expand(cs, plan)
  {
    if cs != [] {
      ExpandAvoids(cs[1..], plan, x);
    }
  }

  /** Where the author at index `i` stands among the children, and which
      authors come before and after it. */
  lemma {:induction false} AuthorIndex(cs: seq<Child>, i: nat) returns (q: nat)
    requires i < |AuthorsIn(cs)|
    ensures q < |cs| && cs[q].AuthorChild? && |AuthorsIn(cs[..q])| == i
  {
    if cs[0].AuthorChild? && i == 0 {
      q := 0;
      assert cs[..0] == [];
    } else {
      var t := cs[1..];
      var d := if cs[0].AuthorChild? then 1 else 0;
      assert |AuthorsIn(cs)| == d + |AuthorsIn(t)|;
      var r := AuthorIndex(t, i - d);
      q := r + 1;
      assert cs[..q] == [cs[0]] + t[..r];
      AuthorsInAppend([cs[0]], t[..r]);
    }
  }

  lemma AuthorSplit(cs: seq<Child>, i: nat) returns (q: nat)
    requires i < |AuthorsIn(cs)|
    ensures q < |cs| && cs[q] == AuthorChild(AuthorsIn(cs)[i])
    ensures AuthorsIn(cs[..q]) == AuthorsIn(cs)[..i]
    ensures AuthorsIn(cs[q + 1..]) == AuthorsIn(cs)[i + 1..]
  {
    q := AuthorIndex(cs, i);
    var pre, post := cs[..q], cs[q + 1..];
    assert cs == pre + [cs[q]] + post;
    AuthorsIn3(pre, [cs[q]], post);
    assert AuthorsIn([cs[q]]) == [cs[q].author];
    var all := AuthorsIn(cs);
    assert all == AuthorsIn(pre) + [cs[q].author] + AuthorsIn(post);
    assert all[..i] == AuthorsIn(pre);
    assert all[i + 1..] == AuthorsIn(post);
  }

  /** Every author of a child list is one of its children. */
  lemma {:induction false} ChildAuthor(cs: seq<Child>, j: nat)
    requires j < |cs| && cs[j].AuthorChild?
    ensures cs[j].author in AuthorsIn(cs)
  {
    if j > 0 {
      ChildAuthor(cs[1..], j - 1);
    }
  }

  lemma AuthorOf(cs: seq<Child>, a: Author)
    requires a in AuthorsIn(cs)
    ensures AuthorChild(a) in cs
  {
    var i :| 0 <= i < |AuthorsIn(cs)| && AuthorsIn(cs)[i] == a;
    var q := AuthorSplit(cs, i);
  }

  lemma AuthorsIn3(a: seq<Child>, m: seq<Child>, b: seq<Child>)
    ensures AuthorsIn(a + m + b) == AuthorsIn(a) + AuthorsIn(m) + AuthorsIn(b)
  {
    AuthorsInAppend(a + m, b);
    AuthorsInAppend(a, m);
  }

  /** Expanding around one unplanned author `x` whose successors are all
      unplanned. */
  lemma ExpandAround(pre: seq<Child>, x: Author, post: seq<Child>, plan: map<Author, seq<Child>>, out: seq<Child>)
    requires x !in AuthorsIn(pre) && x !in AuthorsIn(post) && x !in plan
    requires forall a :: a in plan ==> AuthorChild(x) !in plan[a]
    requires forall a :: a in AuthorsIn(post) ==> a !in plan
    ensures Expand(pre + [AuthorChild(x)] + post, plan) == Expand(pre, plan) + [AuthorChild(x)] + post
    ensures Expand(pre + [AuthorChild(x)] + post, plan[x := out]) == Expand(pre, plan) + out + post
    ensures AuthorChild(x) !in Expand(pre, plan)
  {
    var plan' := plan[x := out];
    ExpandAppend(pre + [AuthorChild(x)], post, plan);
    ExpandAppend(pre, [AuthorChild(x)], plan);
    ExpandAppend(pre + [AuthorChild(x)], post, plan');
    ExpandAppend(pre, [AuthorChild(x)], plan');
    ExpandAvoids(pre, plan, x);
    ExpandUnplanned(pre, plan, x, out);
    ExpandUnplanned(post, plan, x, out);
    ExpandNoKeys(post, plan);
    assert Expand([AuthorChild(x)], plan) == [AuthorChild(x)];
    assert Expand([AuthorChild(x)], plan') == out;
  }

  /** One iteration of TransformPaper: the author at snapshot index `idx`
      is found at position `e` of the current children, the first child
      that is that element, and replacing it by `out` is what planning it
      does. */
  lemma ExpandStep(cs: seq<Child>, authors: seq<Author>, idx: nat, plan: map<Author, seq<Child>>, out: seq<Child>)
    returns (e: nat)
    requires AuthorsIn(cs) == authors && Distinct(authors) && idx < |authors|
    requires forall a :: a in plan ==> a !in authors[idx..]
    requires forall a :: a in plan ==> AuthorChild(authors[idx]) !in plan[a]
    ensures e < |Expand(cs, plan)| && Expand(cs, plan)[e] == AuthorChild(authors[idx])
    ensures forall j :: 0 <= j < e ==> Expand(cs, plan)[j] != AuthorChild(authors[idx])
    ensures AuthorsIn(Expand(cs, plan)) == AuthorsIn(Expand(cs, plan)[..e]) + [authors[idx]] + authors[idx + 1..]
    ensures Expand(cs, plan[authors[idx] := out]) == Expand(cs, plan)[..e] + out + Expand(cs, plan)[e + 1..]
    ensures AuthorsIn(Expand(cs, plan[authors[idx] := out]))
            == AuthorsIn(Expand(cs, plan)[..e]) + AuthorsIn(out) + authors[idx + 1..]
  {
    var x := authors[idx];
    var q := AuthorSplit(cs, idx);
    var pre, post := cs[..q], cs[q + 1..];
    assert cs == pre + [AuthorChild(x)] + post;
    assert x !in AuthorsIn(pre) by {
      assert AuthorsIn(pre) == authors[..idx];
    }
    assert AuthorsIn(post) == authors[idx + 1..];
    assert x !in AuthorsIn(post);
    assert forall a :: a in AuthorsIn(post) ==> a !in plan by {
      forall a | a in AuthorsIn(post) ensures a !in plan {
        assert a in authors[idx..];
      }
    }
    ExpandAround(pre, x, post, plan, out);
    var ePre := Expand(pre, plan);
    var cur := Expand(cs, plan);
    e := |ePre|;
    assert cur[..e] == ePre && cur[e + 1..] == post;
    AuthorsIn3(ePre, [AuthorChild(x)], post);
    AuthorsIn3(ePre, out, post);
    assert AuthorsIn([AuthorChild(x)]) == [x];
  }

  /** Reading the children in the current heap gives a value list of the
      same shape, whose authors are the author elements' current text. */
  lemma {:induction false} ViewShape(cs: seq<Child>)
    ensures Shape(cs, ViewOf(cs))
    ensures |Authors(ViewOf(cs))| == |AuthorsIn(cs)|
    ensures forall k :: 0 <= k < |AuthorsIn(cs)| ==> Authors(ViewOf(cs))[k] == AuthorsIn(cs)[k].Value()
  {
    if cs != [] {
      ViewShape(cs[1..]);
      var v := ViewOf(cs);
      assert v[1..] == ViewOf(cs[1..]);
      forall j | 0 <= j < |cs| ensures Matches(cs[j], v[j]) {
        if j > 0 {
          assert cs[j] == cs[1..][j - 1] && v[j] == v[1..][j - 1];
        }
      }
    }
  }

  /** The heart of the loop proof: expanding every author by a plan whose
      output, read in the current heap, is what the value-level rule makes
      of that author, yields the value-level rule's result. */
  lemma {:induction false} ExpandView(cs: seq<Child>, plan: map<Author, seq<Child>>, v: seq<Node>, n: nat, k: nat)
    requires Shape(cs, v)
    requires |Authors(v)| == |AuthorsIn(cs)|
    requires forall j :: 0 <= j < |AuthorsIn(cs)| ==> AuthorsIn(cs)[j] in plan
    requires forall j :: 0 <= j < |AuthorsIn(cs)| ==>
               ViewOf(plan[AuthorsIn(cs)[j]]) == RewriteAuthor(Authors(v)[j], n, k + j)
    ensures ViewOf(Expand(cs, plan)) == RewriteFrom(v, n, k)
  {
    if cs != [] {
      var t, w := cs[1..], v[1..];
      assert Matches(cs[0], v[0]);
      assert Shape(t, w) by {
        forall j | 0 <= j < |t| ensures Matches(t[j], w[j]) {
          assert Matches(cs[j + 1], v[j + 1]);
        }
      }
      var head := if cs[0].AuthorChild? && cs[0].author in plan then plan[cs[0].author] else [cs[0]];
      assert Expand(cs, plan) == head + Expand(t, plan);
      ViewOfAppend(head, Expand(t, plan));
      if cs[0].AuthorChild? {
        assert AuthorsIn(cs) == [cs[0].author] + AuthorsIn(t);
        assert Authors(v) == [v[0].name] + Authors(w);
        assert cs[0].author == AuthorsIn(cs)[0];
        forall j | 0 <= j < |AuthorsIn(t)|
          ensures AuthorsIn(t)[j] in plan
          ensures ViewOf(plan[AuthorsIn(t)[j]]) == RewriteAuthor(Authors(w)[j], n, k + 1 + j)
        {
          assert AuthorsIn(t)[j] == AuthorsIn(cs)[j + 1];
          assert Authors(w)[j] == Authors(v)[j + 1];
        }
        ExpandView(t, plan, w, n, k + 1);
      } else {
        assert AuthorsIn(cs) == AuthorsIn(t);
        assert Authors(v) == Authors(w);
        ExpandView(t, plan, w, n, k);
        assert ViewOf([cs[0]]) == [v[0]];
      }
    }
  }

  lemma SeqAround<T>(s: seq<T>, e: nat)
    requires e < |s|
    ensures s == s[..e] + [s[e]] + s[e + 1..]
  {
  }

  lemma CancelRight<T>(a: seq<T>, b: seq<T>, c: seq<T>)
    requires a + c == b + c
    ensures a == b
  {
    assert |a| == |b|;
    assert a == (a + c)[..|a|];
    assert b == (b + c)[..|b|];
  }

  /** What the author at snapshot index `k` of `n` has become once the
      loop has passed it; `injected` holds the author element added for a
      sole author, once it exists. */
  ghost function Outcome(a: Author, n: nat, k: nat, injected: seq<Author>): seq<Child> {
    if n == 1 then [AuthorChild(a)] + (if injected == [] then [] else [AuthorChild(injected[0])])
    else if k > 1 then []
    else [AuthorChild(a)]
  }

  /** The outcomes of the first `i` snapshot authors. */
  ghost function Plan(authors: seq<Author>, n: nat, i: nat, injected: seq<Author>): map<Author, seq<Child>>
    requires i <= |authors|
  {
    if i == 0 then map[]
    else Plan(authors, n, i - 1, injected)[authors[i - 1] := Outcome(authors[i - 1], n, i - 1, injected)]
  }

  lemma DistinctSplit(authors: seq<Author>, idx: nat)
    requires Distinct(authors) && idx < |authors|
    ensures authors[idx] !in authors[..idx] && authors[idx] !in authors[idx + 1..]
    ensures forall a :: a in authors[..idx] ==> a !in authors[idx..]
  {
    forall a | a in authors[..idx] ensures a !in authors[idx..] {
      var j :| 0 <= j < idx && authors[j] == a;
    }
  }

  /** Only authors already passed are planned, and their outcomes hold
      only those authors and the injected one. */
  lemma {:induction false} PlanFacts(authors: seq<Author>, n: nat, i: nat, injected: seq<Author>)
    requires i <= |authors|
    ensures forall a :: a in Plan(authors, n, i, injected) ==> a in authors[..i]
    ensures forall a, c :: a in Plan(authors, n, i, injected) && c in Plan(authors, n, i, injected)[a] ==>
              c.AuthorChild? && (c.author in authors[..i] || c.author in injected)
  {
    if i > 0 {
      PlanFacts(authors, n, i - 1, injected);
      assert authors[..i] == authors[..i - 1] + [authors[i - 1]];
    }
  }

  /** Every author passed is planned with its outcome. */
  lemma {:induction false} PlanAt(authors: seq<Author>, n: nat, i: nat, injected: seq<Author>, k: nat)
    requires i <= |authors| && Distinct(authors) && k < i
    ensures authors[k] in Plan(authors, n, i, injected)
    ensures Plan(authors, n, i, injected)[authors[k]] == Outcome(authors[k], n, k, injected)
  {
    if k < i - 1 {
      PlanAt(authors, n, i - 1, injected, k);
    }
  }

  /** One iteration of TransformPaper: the author at snapshot index `idx`
      is the child at position `e` of the current list (its first child
      that is that element), and what the iteration does to the list is
      replace that child by the author's outcome. */
  lemma Step(cs: seq<Child>, authors: seq<Author>, n: nat, idx: nat, injected: seq<Author>,
             cur: seq<Child>, kept: seq<Author>, out: seq<Child>)
    returns (e: nat)
    requires AuthorsIn(cs) == authors && Distinct(authors) && n == |authors| && idx < n
    requires forall b :: b in injected ==> b !in authors
    requires cur == Expand(cs, Plan(authors, n, idx, injected))
    requires AuthorsIn(cur) == kept + authors[idx..]
    ensures e < |cur| && cur[e] == AuthorChild(authors[idx])
    ensures forall j :: 0 <= j < e ==> cur[j] != AuthorChild(authors[idx])
    ensures Expand(cs, Plan(authors, n, idx, injected)[authors[idx] := out]) == cur[..e] + out + cur[e + 1..]
    ensures AuthorsIn(cur[..e] + out + cur[e + 1..]) == kept + AuthorsIn(out) + authors[idx + 1..]
  {
    var plan := Plan(authors, n, idx, injected);
    var x := authors[idx];
    PlanFacts(authors, n, idx, injected);
    DistinctSplit(authors, idx);
    assert forall a :: a in plan ==> AuthorChild(x) !in plan[a];
    e := ExpandStep(cs, authors, idx, plan, out);
    assert authors[idx..] == [x] + authors[idx + 1..];
    CancelRight(AuthorsIn(cur[..e]), kept, [x] + authors[idx + 1..]);
  }

  /** The loop invariant of TransformPaper about the child list: it is the
      snapshot `cs` with the first `idx` snapshot authors replaced by their
      outcomes, and its authors are the kept ones, then the injected one,
      then those not reached yet. */
  ghost predicate Ready(cs: seq<Child>, authors: seq<Author>, n: nat, idx: nat,
                        injected: seq<Author>, cur: seq<Child>)
  {
    AuthorsIn(cs) == authors && Distinct(authors) && n == |authors| && idx <= n &&
    (forall b :: b in injected ==> b !in authors) &&
    cur == Expand(cs, Plan(authors, n, idx, injected)) &&
    AuthorsIn(cur) == authors[..Min(idx, 2)] + injected + authors[idx..]
  }

  /** The author the loop reaches is still a child of the paper. */
  lemma Present(cs: seq<Child>, authors: seq<Author>, n: nat, idx: nat,
                injected: seq<Author>, cur: seq<Child>)
    requires Ready(cs, authors, n, idx, injected, cur) && idx < n
    ensures AuthorChild(authors[idx]) in cur
  {
    var e := Step(cs, authors, n, idx, injected, cur, authors[..Min(idx, 2)] + injected, []);
  }

  lemma InsertAfter(cur: seq<Child>, p: nat, x: Author, y: Author)
    requires p < |cur| && cur[p] == AuthorChild(x)
    ensures cur[..p + 1] + [AuthorChild(y)] + cur[p + 1..] == cur[..p] + [AuthorChild(x), AuthorChild(y)] + cur[p + 1..]
  {
    assert cur[..p + 1] == cur[..p] + [AuthorChild(x)];
  }

  lemma AuthorsOfTwo(x: Author, y: Author)
    ensures AuthorsIn([AuthorChild(x), AuthorChild(y)]) == [x, y]
  {
    assert [AuthorChild(x), AuthorChild(y)][1..] == [AuthorChild(y)];
  }

  /** A sole author: inserting the new element right after it. */
  lemma StepInsert(cs: seq<Child>, authors: seq<Author>, cur: seq<Child>, p: nat, added: Author)
    requires Ready(cs, authors, 1, 0, [], cur) && added !in authors
    requires p < |cur| && cur[p] == AuthorChild(authors[0])
    requires forall j :: 0 <= j < p ==> cur[j] != AuthorChild(authors[0])
    ensures Ready(cs, authors, 1, 1, [added], cur[..p + 1] + [AuthorChild(added)] + cur[p + 1..])
  {
    var x := authors[0];
    var out := [AuthorChild(x), AuthorChild(added)];
    var e := Step(cs, authors, 1, 0, [], cur, [], out);
    assert e == p;
    InsertAfter(cur, p, x, added);
    assert Plan(authors, 1, 1, [added]) == Plan(authors, 1, 0, [])[x := out] by {
      assert Outcome(x, 1, 0, [added]) == out;
      assert Plan(authors, 1, 0, [added]) == map[] == Plan(authors, 1, 0, []);
    }
    AuthorsOfTwo(x, added);
    assert authors[..Min(1, 2)] + [added] + authors[1..] == [] + [x, added] + authors[1..];
  }

  /** An author at snapshot index 2 or later: removing it. */
  lemma StepRemove(cs: seq<Child>, authors: seq<Author>, n: nat, idx: nat, cur: seq<Child>, p: nat)
    requires Ready(cs, authors, n, idx, [], cur) && n != 1 && 1 < idx < n
    requires p < |cur| && cur[p] == AuthorChild(authors[idx])
    requires forall j :: 0 <= j < p ==> cur[j] != AuthorChild(authors[idx])
    ensures Ready(cs, authors, n, idx + 1, [], cur[..p] + cur[p + 1..])
  {
    var x := authors[idx];
    var kept := authors[..Min(idx, 2)] + [];
    var e := Step(cs, authors, n, idx, [], cur, kept, []);
    assert e == p;
    assert cur[..p] + cur[p + 1..] == cur[..p] + [] + cur[p + 1..];
    assert Plan(authors, n, idx + 1, []) == Plan(authors, n, idx, [])[x := []];
    assert AuthorsIn([]) == [];
  }

  /** The first or second of several authors stays where it is. */
  lemma StepKeep(cs: seq<Child>, authors: seq<Author>, n: nat, idx: nat, cur: seq<Child>)
    requires Ready(cs, authors, n, idx, [], cur) && n != 1 && idx < n && idx <= 1
    ensures Ready(cs, authors, n, idx + 1, [], cur)
  {
    var x := authors[idx];
    var out := [AuthorChild(x)];
    var kept := authors[..Min(idx, 2)] + [];
    var e := Step(cs, authors, n, idx, [], cur, kept, out);
    SeqAround(cur, e);
    KeepNext(authors, n, idx);
  }

  /** The plan and the kept authors after keeping the author at `idx`. */
  lemma KeepNext(authors: seq<Author>, n: nat, idx: nat)
    requires n != 1 && idx < |authors| && idx <= 1
    ensures Plan(authors, n, idx + 1, []) == Plan(authors, n, idx, [])[authors[idx] := [AuthorChild(authors[idx])]]
    ensures AuthorsIn([AuthorChild(authors[idx])]) == [authors[idx]]
    ensures authors[..Min(idx, 2)] + [] + [authors[idx]] == authors[..Min(idx + 1, 2)] + []
  {
    assert authors[..idx + 1] == authors[..idx] + [authors[idx]];
  }

  /** After the loop, reading each author's outcome in the current heap
      gives what the value-level rule makes of that author. */
  lemma PlanView(authors: seq<Author>, n: nat, names0: seq<Name>, injected: seq<Author>)
    requires n == |authors| == |names0| && Distinct(authors)
    requires forall k :: 0 <= k < n ==> authors[k].first == names0[k].first
    requires forall k :: 0 <= k < n ==>
               authors[k].last == if k < 2 then Upcased(names0[k]).last else names0[k].last
    requires n == 1 ==> |injected| == 1 && injected[0].Value() == Injected
    ensures forall j :: 0 <= j < n ==>
              authors[j] in Plan(authors, n, n, injected) &&
              ViewOf(Plan(authors, n, n, injected)[authors[j]]) == RewriteAuthor(names0[j], n, j)
  {
    forall j | 0 <= j < n
      ensures authors[j] in Plan(authors, n, n, injected)
      ensures ViewOf(Plan(authors, n, n, injected)[authors[j]]) == RewriteAuthor(names0[j], n, j)
    {
      PlanAt(authors, n, n, injected, j);
      var a := authors[j];
      assert j < 2 ==> a.Value() == Upcased(names0[j]);
      if n == 1 {
        var out := [AuthorChild(a), AuthorChild(injected[0])];
        assert out[1..] == [AuthorChild(injected[0])];
        assert ViewOf(out[1..]) == [AuthorNode(Injected)];
        assert ViewOf(out) == [AuthorNode(a.Value()), AuthorNode(Injected)];
      } else if j < 2 {
        assert ViewOf([AuthorChild(a)]) == [AuthorNode(a.Value())];
      }
    }
  }

  /** Before the walk: nothing is planned yet, and the snapshot authors
      hold what the paper reads as. */
  lemma Begin(cs0: seq<Child>)
    requires Distinct(AuthorsIn(cs0))
    ensures Ready(cs0, AuthorsIn(cs0), |AuthorsIn(cs0)|, 0, [], cs0)
    ensures Shape(cs0, ViewOf(cs0)) && |Authors(ViewOf(cs0))| == |AuthorsIn(cs0)|
    ensures forall k :: 0 <= k < |AuthorsIn(cs0)| ==>
              AuthorsIn(cs0)[k].first == Authors(ViewOf(cs0))[k].first &&
              AuthorsIn(cs0)[k].last == Authors(ViewOf(cs0))[k].last
  {
    ViewShape(cs0);
    ExpandNoKeys(cs0, map[]);
  }

  /** After the walk: the authors left are the first two of the snapshot,
      or the sole one and the injected one, each once. */
  lemma Conclude(cs0: seq<Child>, authors: seq<Author>, injected: seq<Author>, cs: seq<Child>)
    requires Ready(cs0, authors, |authors|, |authors|, injected, cs)
    requires |authors| == 1 ==> |injected| == 1
    requires |authors| != 1 ==> injected == []
    ensures AuthorsIn(cs) == if |authors| == 1 then [authors[0], injected[0]] else authors[..Min(|authors|, 2)]
    ensures Distinct(AuthorsIn(cs))
  {
    var n := |authors|;
    assert AuthorsIn(cs) == authors[..Min(n, 2)] + injected + authors[n..];
    if n == 1 {
      assert authors[..1] == [authors[0]];
      assert injected[0] in injected;
    } else {
      assert AuthorsIn(cs) == authors[..Min(n, 2)];
    }
  }

  /** After the walk, the paper reads as the value-level rule's result. */
  lemma Finish(cs0: seq<Child>, authors: seq<Author>, names0: seq<Name>, v0: seq<Node>, injected: seq<Author>)
    requires AuthorsIn(cs0) == authors && Distinct(authors)
    requires Shape(cs0, v0) && names0 == Authors(v0) && |names0| == |authors|
    requires forall k :: 0 <= k < |authors| ==> authors[k].first == names0[k].first
    requires forall k :: 0 <= k < |authors| ==>
               authors[k].last == if k < 2 then Upcased(names0[k]).last else names0[k].last
    requires |authors| == 1 ==> |injected| == 1 && injected[0].Value() == Injected
    ensures ViewOf(Expand(cs0, Plan(authors, |authors|, |authors|, injected))) == Rewrite(v0)
  {
    var n := |authors|;
    PlanView(authors, n, names0, injected);
    ExpandView(cs0, Plan(authors, n, n, injected), v0, n, 0);
  }

  /** One pass of the loop over the snapshot `authors` of bin/fix-names.py:
      the author at snapshot index `idx` of `n`. A sole author gets "Matt
      POST" inserted right after it; an author at index 2 or later is
      removed and nothing else happens to it; every other author has its
      surname upper-cased. The decisions use the snapshot's `n` and `idx`,
      never the live child list. `names0` is what the authors held before
      the loop; `ok` is false when the surname to upper-case is missing,
      where the script stops with an exception. */
  method Visit(paper: Paper, authors: seq<Author>, idx: nat, ghost cs0: seq<Child>, ghost names0: seq<Name>)
    returns (ok: bool, ghost injected: seq<Author>)
    requires idx < |authors| == |names0|
    requires Ready(cs0, authors, |authors|, idx, [], paper.children)
    requires forall k :: 0 <= k < |authors| ==> authors[k].first == names0[k].first
    requires forall k :: 0 <= k < |authors| ==>
      authors[k].last == if k < idx && k < 2 then Upcased(names0[k]).last else names0[k].last
    modifies paper, authors
    ensures ok == (idx < 2 ==> names0[idx].last.Some?)
    ensures ok ==> Ready(cs0, authors, |authors|, idx + 1, injected, paper.children)
    ensures ok && |authors| == 1 ==>
      |injected| == 1 && fresh(injected[0]) && injected[0].Value() == Injected
    ensures ok && |authors| != 1 ==> injected == []
    ensures ok ==> forall k :: 0 <= k < |authors| ==> authors[k].first == names0[k].first
    ensures ok ==> forall k :: 0 <= k < |authors| ==>
      authors[k].last == if k < idx + 1 && k < 2 then Upcased(names0[k]).last else names0[k].last
  {
    var n := |authors|;
    var author := authors[idx];
    ghost var cur := paper.children;
    injected := [];
    Present(cs0, authors, n, idx, [], cur);
    if n == 1 {
      // A sole author: a new "Matt POST" element goes right after it (lines 66-72).
      var newAuthor := new Author(Some("Matt"), Some("POST"));
      var p := paper.IndexOf(author);
      paper.Insert(p + 1, AuthorChild(newAuthor));
      StepInsert(cs0, authors, cur, p, newAuthor);
      injected := [newAuthor];
    } else if idx > 1 {
      // Past the second author: detach it and skip its surname (lines 73-77).
      ghost var p := paper.Remove(author);
      StepRemove(cs0, authors, n, idx, cur, p);
      return true, injected;
    } else {
      StepKeep(cs0, authors, n, idx, cur);
    }
    // Every author still in place gets its surname upper-cased (lines 79-80);
    // a missing surname raises in the script.
    if author.last.None? {
      return false, injected;
    }
    author.last := Some(Upper(author.last.value));
    ok := true;
  }

  /** The loop over the snapshot: Visit each author in turn, stopping at
      the first failure. */
  method Walk(paper: Paper, authors: seq<Author>, ghost cs0: seq<Child>, ghost names0: seq<Name>)
    returns (ok: bool, ghost injected: seq<Author>)
    requires Ready(cs0, authors, |authors|, 0, [], paper.children)
    requires |names0| == |authors|
    requires forall k :: 0 <= k < |authors| ==> authors[k].first == names0[k].first
    requires forall k :: 0 <= k < |authors| ==> authors[k].last == names0[k].last
    modifies paper, authors
    ensures ok == forall k :: 0 <= k < |authors| && k < 2 ==> names0[k].last.Some?
    ensures ok ==> Ready(cs0, authors, |authors|, |authors|, injected, paper.children)
    ensures ok && |authors| == 1 ==>
      |injected| == 1 && fresh(injected[0]) && injected[0].Value() == Injected
    ensures ok && |authors| != 1 ==> injected == []
    ensures ok ==> forall k :: 0 <= k < |authors| ==> authors[k].first == names0[k].first
    ensures ok ==> forall k :: 0 <= k < |authors| ==>
      authors[k].last == if k < 2 then Upcased(names0[k]).last else names0[k].last
  {
    var n := |authors|;
    injected := [];
    var idx := 0;
    while idx < n
      invariant 0 <= idx <= n
      invariant Ready(cs0, authors, n, idx, injected, paper.children)
      invariant n == 1 && idx == 1 ==>
        |injected| == 1 && fresh(injected[0]) && injected[0].Value() == Injected
      invariant !(n == 1 && idx == 1) ==> injected == []
      invariant forall k :: 0 <= k < n ==> authors[k].first == names0[k].first
      invariant forall k :: 0 <= k < n ==>
        authors[k].last == if k < idx && k < 2 then Upcased(names0[k]).last else names0[k].last
      invariant forall k :: 0 <= k < idx && k < 2 ==> names0[k].last.Some?
    {
      ok, injected := Visit(paper, authors, idx, cs0, names0);
      if !ok {
        return;
      }
      idx := idx + 1;
    }
    ok := true;
  }

  /** The body of the `for paper in ...` loop of bin/fix-names.py: take a
      snapshot of the author elements and their number, then walk it. On
      success the paper holds what the value-level rule makes of it: a sole
      author is followed by a fresh "Matt POST" element, otherwise the first
      two author elements remain; no other element is touched. When `ok` is
      false the paper is left part-way, as the script leaves it. */
  method TransformPaper(paper: Paper) returns (ok: bool)
    requires paper.Valid()
    modifies paper, paper.AuthorSet()
    ensures ok == Transformable(old(paper.View()))
    ensures ok ==> paper.Valid() && paper.View() == Rewrite(old(paper.View()))
    ensures ok ==>
      var before, after := old(AuthorsIn(paper.children)), AuthorsIn(paper.children);
      if |before| == 1 then |after| == 2 && after[0] == before[0] && fresh(after[1])
      else after == before[..Min(|before|, 2)]
    ensures ok ==> forall a :: a in paper.AuthorSet() ==> a in old(paper.AuthorSet()) || fresh(a)
    ensures ok ==>
      var cs := old(paper.children);
      forall j :: 0 <= j < |cs| && cs[j].AuthorChild? && cs[j] !in paper.children ==>
        cs[j].author.first == old(cs[j].author.first) && cs[j].author.last == old(cs[j].author.last)
  {
    var authors := AuthorsIn(paper.children);
    ghost var cs0 := paper.children;
    ghost var v0 := paper.View();
    ghost var names0 := Authors(v0);
    Begin(cs0);
    forall k | 0 <= k < |authors| ensures allocated(authors[k]) {
      var q := AuthorSplit(cs0, k);
    }
    ghost var injected;
    ok, injected := Walk(paper, authors, cs0, names0);
    if ok {
      Finish(cs0, authors, names0, v0, injected);
      Conclude(cs0, authors, injected, paper.children);
      forall j | 0 <= j < |cs0| && cs0[j].AuthorChild? && cs0[j] !in paper.children
        ensures cs0[j].author.first == old(cs0[j].author.first) && cs0[j].author.last == old(cs0[j].author.last)
      {
        ChildAuthor(cs0, j);
        var k :| 0 <= k < |authors| && authors[k] == cs0[j].author;
        if k < 2 {
          AuthorOf(paper.children, authors[k]);
        }
      }
    }
  }

  /** `main` over one collection file, after parsing: every paper element
      of the document, in document order, goes through TransformPaper; the
      first paper that fails stops the run. Papers are distinct elements
      and no author element belongs to two papers. */
  method TransformCollection(papers: seq<Paper>) returns (ok: bool)
    requires forall i :: 0 <= i < |papers| ==> papers[i].Valid()
    requires forall i, j :: 0 <= i < j < |papers| ==> papers[i] != papers[j]
    requires forall i, j :: 0 <= i < j < |papers| ==> papers[i].AuthorSet() !! papers[j].AuthorSet()
    modifies set p | p in papers
    modifies set p, a | p in papers && a in p.AuthorSet() :: a
    ensures ok == forall i :: 0 <= i < |papers| ==> Transformable(old(papers[i].View()))
    ensures ok ==> forall i :: 0 <= i < |papers| ==> papers[i].View() == Rewrite(old(papers[i].View()))
    ensures ok ==> forall i :: 0 <= i < |papers| ==> papers[i].Valid()
    ensures ok ==> forall i, j :: 0 <= i < j < |papers| ==> papers[i].AuthorSet() !! papers[j].AuthorSet()
  {
    var i := 0;
    while i < |papers|
      invariant 0 <= i <= |papers|
      invariant forall j :: 0 <= j < i ==>
        Transformable(old(papers[j].View())) && papers[j].View() == Rewrite(old(papers[j].View())) &&
        papers[j].Valid()
      invariant forall j :: i <= j < |papers| ==>
        papers[j].children == old(papers[j].children) && papers[j].Valid() &&
        papers[j].View() == old(papers[j].View())
      invariant forall j, k :: 0 <= j < k < |papers| ==> papers[j].AuthorSet() !! papers[k].AuthorSet()
    {
      forall j, a | 0 <= j < |papers| && a in papers[j].AuthorSet() ensures allocated(a) {
        AuthorOf(papers[j].children, a);
      }
      assert papers[i].AuthorSet() == old(papers[i].AuthorSet());
      label Before:
      var done := TransformPaper(papers[i]);
      if !done {
        return false;
      }
      forall j | 0 <= j < |papers| && j != i
        ensures papers[j].children == old@Before(papers[j].children)
        ensures papers[j].AuthorSet() == old@Before(papers[j].AuthorSet())
        ensures papers[j].View() == old@Before(papers[j].View())
        ensures papers[j].Valid() == old@Before(papers[j].Valid())
      {
        assert papers[j] != papers[i];
        assert papers[j].AuthorSet() !! old@Before(papers[i].AuthorSet());
      }
      i := i + 1;
    }
    ok := true;
  }
}
