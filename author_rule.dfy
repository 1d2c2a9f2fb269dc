/** The author-list rule of bin/fix-names.py, stated on values.

    A paper element is seen here as the sequence of its children: author
    elements, each reduced to the text of its `first` and `last` children,
    and every other child (title, pages, url, ...) as an opaque value.
    `RewriteFrom` walks that sequence the way the script's loop walks the
    snapshot of author elements: the author at original position `idx`
    among `n` authors either gains "Matt POST" after it (n == 1), disappears
    (idx > 1) or stays; every author that stays has its surname
    upper-cased. The lemmas below state what that rule promises. */
module AuthorRule {
  import opened Text

  datatype Option<T> = None | Some(value: T)

  /** The text of an author element's `first` and `last` children; None
      when the child is missing or carries no text. */
  datatype Name = Name(first: Option<string>, last: Option<string>)

  /** One child of a paper element. */
  datatype Node = AuthorNode(name: Name) | OtherNode(element: string)

  /** The coauthor added to every single-author paper; its surname is
      written upper-case already. */
  const Injected: Name := Name(Some("Matt"), Some("POST"))

  /** The author children of a paper, in document order (`./author`). */
  function Authors(ns: seq<Node>): (r: seq<Name>)
    ensures |r| <= |ns|
  {
    if ns == [] then []
    else if ns[0].AuthorNode? then [ns[0].name] + Authors(ns[1..])
    else Authors(ns[1..])
  }

  /** The children that are not authors, in document order. */
  function Others(ns: seq<Node>): (r: seq<Node>)
    ensures forall x :: x in r ==> x.OtherNode? && x in ns
    ensures |Authors(ns)| + |r| == |ns|
  {
    if ns == [] then []
    else if ns[0].AuthorNode? then Others(ns[1..])
    else [ns[0]] + Others(ns[1..])
  }

  /** An author whose surname has been upper-cased (`last.text.upper()`).
      An author without surname text stays as it is; the script fails
      on such an author, see Transformable. */
  function Upcased(a: Name): Name {
    if a.last.Some? then a.(last := Some(Upper(a.last.value))) else a
  }

  /** The rule runs to its end: every author it keeps (original index 0
      or 1) has surname text. Authors past the second are removed before
      their surname is looked at, so they may lack one. */
  predicate Transformable(ns: seq<Node>) {
    forall k :: 0 <= k < |Authors(ns)| && k < 2 ==> Authors(ns)[k].last.Some?
  }

  /** What the author at original index `idx` of `n` authors becomes. */
  function RewriteAuthor(a: Name, n: nat, idx: nat): seq<Node> {
    if n == 1 then [AuthorNode(Upcased(a)), AuthorNode(Injected)]
    else if idx > 1 then []
    else [AuthorNode(Upcased(a))]
  }

  /** The rule applied to the children `ns`, of a paper that had `n`
      authors, when `k` of its authors come before `ns`. */
  function RewriteFrom(ns: seq<Node>, n: nat, k: nat): seq<Node> {
    if ns == [] then []
    else if ns[0].AuthorNode? then
      RewriteAuthor(ns[0].name, n, k) + RewriteFrom(ns[1..], n, k + 1)
    else [ns[0]] + RewriteFrom(ns[1..], n, k)
  }

  /** The children of a paper after the rule. */
  function Rewrite(ns: seq<Node>): seq<Node> {
    RewriteFrom(ns, |Authors(ns)|, 0)
  }

  // A second, declarative description of the same outcome.

  /** Every author with its surname upper-cased, in place. */
  function UpAll(ns: seq<Node>): seq<Node> {
    if ns == [] then []
    else [if ns[0].AuthorNode? then AuthorNode(Upcased(ns[0].name)) else ns[0]] + UpAll(ns[1..])
  }

  /** The children with every author after the first `keep` removed. */
  function Truncated(ns: seq<Node>, keep: nat): seq<Node> {
    if ns == [] then []
    else if ns[0].OtherNode? then [ns[0]] + Truncated(ns[1..], keep)
    else if keep > 0 then [ns[0]] + Truncated(ns[1..], keep - 1)
    else Truncated(ns[1..], 0)
  }

  /** Upper-cases the surname of every name in a list. */
  function UpNames(names: seq<Name>): seq<Name> {
    if names == [] then [] else [Upcased(names[0])] + UpNames(names[1..])
  }

  /** The author list a paper ends with, given the one it started with. */
  function ExpectedAuthors(names: seq<Name>): seq<Name> {
    if |names| == 0 then []
    else if |names| == 1 then [Upcased(names[0]), Injected]
    else [Upcased(names[0]), Upcased(names[1])]
  }

  // Structural facts.

  lemma {:induction false} AuthorsAppend(a: seq<Node>, b: seq<Node>)
    ensures Authors(a + b) == Authors(a) + Authors(b)
  {
    if a != [] {
      assert (a + b)[1..] == a[1..] + b;
      AuthorsAppend(a[1..], b);
    } else {
      assert a + b == b;
    }
  }

  lemma {:induction false} OthersAppend(a: seq<Node>, b: seq<Node>)
    ensures Others(a + b) == Others(a) + Others(b)
  {
    if a != [] {
      assert (a + b)[1..] == a[1..] + b;
      OthersAppend(a[1..], b);
    } else {
      assert a + b == b;
    }
  }

  /** The rule works child by child: a split of the children splits the
      result, with the author count carried across. */
  lemma {:induction false} RewriteFromAppend(a: seq<Node>, b: seq<Node>, n: nat, k: nat)
    ensures RewriteFrom(a + b, n, k) == RewriteFrom(a, n, k) + RewriteFrom(b, n, k + |Authors(a)|)
  {
    if a == [] {
      assert a + b == b;
    } else {
      var t := a[1..];
      assert (a + b)[0] == a[0] && (a + b)[1..] == t + b;
      var k' := if a[0].AuthorNode? then k + 1 else k;
      var head := if a[0].AuthorNode? then RewriteAuthor(a[0].name, n, k) else [a[0]];
      assert k' + |Authors(t)| == k + |Authors(a)|;
      assert RewriteFrom(a + b, n, k) == head + RewriteFrom(t + b, n, k');
      assert RewriteFrom(a, n, k) == head + RewriteFrom(t, n, k');
      RewriteFromAppend(t, b, n, k');
    }
  }

  /** Children without authors pass through unchanged. */
  lemma {:induction false} RewriteFromNoAuthors(ns: seq<Node>, n: nat, k: nat)
    requires Authors(ns) == []
    ensures RewriteFrom(ns, n, k) == ns
  {
    if ns != [] {
      RewriteFromNoAuthors(ns[1..], n, k);
    }
  }

  // What the rule promises.

  /** A paper without authors is left exactly as it was. */
  lemma NoAuthorsUnchanged(ns: seq<Node>)
    requires |Authors(ns)| == 0
    ensures Rewrite(ns) == ns
  {
    RewriteFromNoAuthors(ns, 0, 0);
  }

  /** A single-author paper split around its author. */
  lemma SoleAuthorParts(ns: seq<Node>, p: nat)
    requires |Authors(ns)| == 1
    requires p < |ns| && ns[p].AuthorNode?
    ensures ns == ns[..p] + [ns[p]] + ns[p + 1..]
    ensures Authors(ns[..p]) == [] && Authors(ns[..p] + [ns[p]]) == [ns[p].name] && Authors(ns[p + 1..]) == []
  {
    var pre, x, post := ns[..p], [ns[p]], ns[p + 1..];
    assert ns == pre + x + post;
    AuthorsAppend(pre + x, post);
    AuthorsAppend(pre, x);
    assert Authors(x) == [ns[p].name];
  }

  lemma SoleAuthorRewrite(x: Node)
    requires x.AuthorNode?
    ensures RewriteFrom([x], 1, 0) == [AuthorNode(Upcased(x.name)), AuthorNode(Injected)]
  {
    assert [x][1..] == [];
  }

  /** A single-author paper keeps its author, surname upper-cased, in the
      same place, and "Matt POST" sits right after it; nothing else
      moves. */
  lemma SoleAuthorGainsCoauthor(ns: seq<Node>, p: nat)
    requires |Authors(ns)| == 1
    requires p < |ns| && ns[p].AuthorNode?
    ensures Rewrite(ns) == ns[..p] + [AuthorNode(Upcased(ns[p].name)), AuthorNode(Injected)] + ns[p + 1..]
  {
    SoleAuthorParts(ns, p);
    var pre, x, post := ns[..p], [ns[p]], ns[p + 1..];
    RewriteFromAppend(pre + x, post, 1, 0);
    RewriteFromAppend(pre, x, 1, 0);
    RewriteFromNoAuthors(pre, 1, 0);
    RewriteFromNoAuthors(post, 1, 1);
    SoleAuthorRewrite(ns[p]);
  }

  /** On a paper that did not have exactly one author, the rule is: drop
      every author after the first two, then upper-case every surname. */
  lemma {:induction false} RewriteIsTruncation(ns: seq<Node>, n: nat, k: nat)
    requires n != 1
    ensures RewriteFrom(ns, n, k) == UpAll(Truncated(ns, if k < 2 then 2 - k else 0))
  {
    if ns != [] {
      if ns[0].AuthorNode? {
        RewriteIsTruncation(ns[1..], n, k + 1);
      } else {
        RewriteIsTruncation(ns[1..], n, k);
      }
    }
  }

  lemma TruncationSpec(ns: seq<Node>)
    requires |Authors(ns)| != 1
    ensures Rewrite(ns) == UpAll(Truncated(ns, 2))
  {
    RewriteIsTruncation(ns, |Authors(ns)|, 0);
  }

  /** A two-author paper keeps both authors in place; only the surnames
      change. */
  lemma TwoAuthorsKeptInPlace(ns: seq<Node>)
    requires |Authors(ns)| == 2
    ensures Rewrite(ns) == UpAll(ns)
  {
    TruncationSpec(ns);
    TruncatedShort(ns, 2);
  }

  lemma {:induction false} TruncatedShort(ns: seq<Node>, keep: nat)
    requires |Authors(ns)| <= keep
    ensures Truncated(ns, keep) == ns
  {
    if ns != [] {
      if ns[0].AuthorNode? {
        TruncatedShort(ns[1..], keep - 1);
      } else {
        TruncatedShort(ns[1..], keep);
      }
    }
  }

  lemma {:induction false} AuthorsTruncated(ns: seq<Node>, keep: nat)
    ensures Authors(Truncated(ns, keep)) == Authors(ns)[..if keep < |Authors(ns)| then keep else |Authors(ns)|]
  {
    if ns != [] {
      var t := ns[1..];
      if ns[0].OtherNode? {
        AuthorsTruncated(t, keep);
        AuthorsAppend([ns[0]], Truncated(t, keep));
      } else if keep > 0 {
        AuthorsTruncated(t, keep - 1);
        AuthorsAppend([ns[0]], Truncated(t, keep - 1));
        assert Authors(ns) == [ns[0].name] + Authors(t);
      } else {
        AuthorsTruncated(t, 0);
      }
    }
  }

  lemma {:induction false} OthersTruncated(ns: seq<Node>, keep: nat)
    ensures Others(Truncated(ns, keep)) == Others(ns)
  {
    if ns != [] {
      var t := ns[1..];
      if ns[0].OtherNode? {
        OthersTruncated(t, keep);
        OthersAppend([ns[0]], Truncated(t, keep));
      } else if keep > 0 {
        OthersTruncated(t, keep - 1);
        OthersAppend([ns[0]], Truncated(t, keep - 1));
      } else {
        OthersTruncated(t, 0);
      }
    }
  }

  lemma {:induction false} AuthorsUpAll(ns: seq<Node>)
    ensures Authors(UpAll(ns)) == UpNames(Authors(ns))
  {
    if ns != [] {
      AuthorsUpAll(ns[1..]);
      AuthorsAppend([UpAll(ns)[0]], UpAll(ns[1..]));
      assert UpAll(ns) == [UpAll(ns)[0]] + UpAll(ns[1..]);
    }
  }

  lemma {:induction false} OthersUpAll(ns: seq<Node>)
    ensures Others(UpAll(ns)) == Others(ns)
  {
    if ns != [] {
      OthersUpAll(ns[1..]);
      OthersAppend([UpAll(ns)[0]], UpAll(ns[1..]));
      assert UpAll(ns) == [UpAll(ns)[0]] + UpAll(ns[1..]);
    }
  }

  /** The author list after the rule: none stays none; one author A
      becomes [A', Matt POST]; otherwise the first two, in their order,
      remain. Every kept author has the surname upper-cased and the first
      name unchanged. */
  lemma RewriteAuthors(ns: seq<Node>)
    ensures Authors(Rewrite(ns)) == ExpectedAuthors(Authors(ns))
  {
    var names := Authors(ns);
    if |names| == 0 {
      NoAuthorsUnchanged(ns);
    } else if |names| == 1 {
      var p := AuthorPosition(ns, 0);
      SoleAuthorGainsCoauthor(ns, p);
      var pre, post := ns[..p], ns[p + 1..];
      var mid := [AuthorNode(Upcased(ns[p].name)), AuthorNode(Injected)];
      assert ns == pre + [ns[p]] + post;
      AuthorsAppend(pre + [ns[p]], post);
      AuthorsAppend(pre, [ns[p]]);
      AuthorsAppend(pre + mid, post);
      AuthorsAppend(pre, mid);
      assert Authors([ns[p]]) == [ns[p].name];
      assert Authors(mid) == [Upcased(ns[p].name), Injected];
    } else {
      TruncationSpec(ns);
      AuthorsUpAll(Truncated(ns, 2));
      AuthorsTruncated(ns, 2);
      assert names[..2] == [names[0], names[1]];
      assert UpNames([names[0], names[1]]) == [Upcased(names[0]), Upcased(names[1])] by {
        var two := [names[0], names[1]];
        assert two[1..] == [names[1]];
        assert UpNames([names[1]]) == [Upcased(names[1])] by {
          assert [names[1]][1..] == [];
        }
      }
    }
  }

  /** The position among the children of the author at index `i`. */
  lemma {:induction false} AuthorPosition(ns: seq<Node>, i: nat) returns (p: nat)
    requires i < |Authors(ns)|
    ensures p < |ns| && ns[p].AuthorNode? && ns[p].name == Authors(ns)[i]
    ensures |Authors(ns[..p])| == i
  {
    if ns[0].AuthorNode? && i == 0 {
      p := 0;
      assert ns[..0] == [];
    } else {
      var j := if ns[0].AuthorNode? then i - 1 else i;
      var q := AuthorPosition(ns[1..], j);
      p := q + 1;
      assert ns[..p] == [ns[0]] + ns[1..][..q];
      AuthorsAppend([ns[0]], ns[1..][..q]);
    }
  }

  /** Non-author children survive unchanged and in their order: derived
      from the two declarative descriptions, the insertion after a sole
      author and the truncation otherwise. */
  lemma RewriteOthers(ns: seq<Node>)
    ensures Others(Rewrite(ns)) == Others(ns)
  {
    if |Authors(ns)| == 1 {
      var p := AuthorPosition(ns, 0);
      SoleAuthorGainsCoauthor(ns, p);
      var pre, post := ns[..p], ns[p + 1..];
      var mid := [AuthorNode(Upcased(ns[p].name)), AuthorNode(Injected)];
      assert ns == pre + [ns[p]] + post;
      OthersAppend(pre + [ns[p]], post);
      OthersAppend(pre, [ns[p]]);
      OthersAppend(pre + mid, post);
      OthersAppend(pre, mid);
      assert Others([ns[p]]) == [] by {
        assert [ns[p]][1..] == [];
      }
      assert Others(mid) == [] by {
        assert mid[1..] == [AuthorNode(Injected)];
        assert mid[1..][1..] == [];
      }
    } else {
      TruncationSpec(ns);
      OthersUpAll(Truncated(ns, 2));
      OthersTruncated(ns, 2);
    }
  }

  /** Every paper that had an author ends with exactly two, all with an
      upper-case surname, provided the rule ran to its end. */
  lemma RewriteShape(ns: seq<Node>)
    requires Transformable(ns)
    requires |Authors(ns)| >= 1
    ensures |Authors(Rewrite(ns))| == 2
    ensures forall a :: a in Authors(Rewrite(ns)) ==> a.last.Some? && NoLower(a.last.value)
  {
    RewriteAuthors(ns);
    var names := Authors(ns);
    UpperNoLower(names[0].last.value);
    if |names| >= 2 {
      UpperNoLower(names[1].last.value);
    }
    assert NoLower("POST");
  }

  /** The first name of every kept author is unchanged. */
  lemma FirstNamesKept(ns: seq<Node>, k: nat)
    requires k < |Authors(ns)| && k < 2
    ensures k < |Authors(Rewrite(ns))|
    ensures Authors(Rewrite(ns))[k].first == Authors(ns)[k].first
  {
    RewriteAuthors(ns);
  }

  lemma {:induction false} UpAllFixed(ns: seq<Node>)
    requires forall a :: a in Authors(ns) ==> Upcased(a) == a
    ensures UpAll(ns) == ns
  {
    if ns != [] {
      var t := ns[1..];
      assert Authors(ns) == (if ns[0].AuthorNode? then [ns[0].name] else []) + Authors(t);
      UpAllFixed(t);
    }
  }

  lemma UpcasedIdempotent(a: Name)
    ensures Upcased(Upcased(a)) == Upcased(a)
  {
    if a.last.Some? {
      UpperIdempotent(a.last.value);
    }
  }

  /** Running the rule on its own output changes nothing: the paper now
      has two authors or none, so no second coauthor is added, and the
      surnames are upper-case already. */
  lemma RewriteIdempotent(ns: seq<Node>)
    requires Transformable(ns)
    ensures Transformable(Rewrite(ns))
    ensures Rewrite(Rewrite(ns)) == Rewrite(ns)
  {
    var r := Rewrite(ns);
    if |Authors(ns)| == 0 {
      NoAuthorsUnchanged(ns);
    } else {
      RewriteShape(ns);
      RewriteAuthors(ns);
      var names := Authors(ns);
      assert Upcased(Injected) == Injected by {
        UpperFixed("POST");
      }
      UpcasedIdempotent(names[0]);
      if |names| >= 2 {
        UpcasedIdempotent(names[1]);
      }
      TruncationSpec(r);
      TruncatedShort(r, 2);
      UpAllFixed(r);
    }
  }

  // Two worked examples.

  /** A paper whose sole author is Jane Smith ends with Jane SMITH and
      Matt POST. */
  lemma JaneSmithExample()
    ensures Rewrite([AuthorNode(Name(Some("Jane"), Some("Smith")))])
            == [AuthorNode(Name(Some("Jane"), Some("SMITH"))), AuthorNode(Injected)]
  {
    SoleAuthorGainsCoauthor([AuthorNode(Name(Some("Jane"), Some("Smith")))], 0);
    assert Upper("Smith") == "SMITH";
  }

  /** A paper with the authors Smith, Lee, Chen and Kim ends with SMITH and
      LEE. */
  lemma FourAuthorsExample()
    ensures Rewrite([AuthorNode(Name(None, Some("Smith"))), AuthorNode(Name(None, Some("Lee"))),
                     AuthorNode(Name(None, Some("Chen"))), AuthorNode(Name(None, Some("Kim")))])
            == [AuthorNode(Name(None, Some("SMITH"))), AuthorNode(Name(None, Some("LEE")))]
  {
    var smith, lee := AuthorNode(Name(None, Some("Smith"))), AuthorNode(Name(None, Some("Lee")));
    var ns := [smith, lee, AuthorNode(Name(None, Some("Chen"))), AuthorNode(Name(None, Some("Kim")))];
    assert |Authors(ns)| == 4;
    TruncationSpec(ns);
    var chen, kim := ns[2], ns[3];
    assert Truncated([kim], 0) == [] by {
      assert [kim][1..] == [];
    }
    assert Truncated([chen, kim], 0) == [] by {
      assert [chen, kim][1..] == [kim];
    }
    assert Truncated(ns[1..], 1) == [lee] by {
      assert ns[1..][1..] == [chen, kim];
    }
    assert Truncated(ns, 2) == [smith, lee];
    assert Upper("Smith") == "SMITH" && Upper("Lee") == "LEE";
    assert UpAll([smith, lee]) == [AuthorNode(Upcased(smith.name))] + UpAll([lee]);
  }
}
