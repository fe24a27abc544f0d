/**
 * An already-parsed MusicXML/MEI document, as a value.
 *
 * Every element has a tag name, a map of attributes, its own character data
 * and an ordered sequence of child elements. An element inside a document is
 * named by its path: the child indices that lead to it from the root. The
 * document order that DOM queries use (getElementsByTagName, querySelector)
 * is the preorder of these paths, given by Paths.
 */
module Tree {

  datatype Option<T> = None | Some(value: T)

  datatype Element = Element(name: string, attrs: map<string, string>, text: string, children: seq<Element>)

  /** Child indices from the root down to an element; [] names the root itself. */
  type Path = seq<nat>

  predicate ValidPath(e: Element, p: Path)
    decreases p
  {
    p == [] || (p[0] < |e.children| && ValidPath(e.children[p[0]], p[1..]))
  }

  function Get(e: Element, p: Path): Element
    requires ValidPath(e, p)
    decreases p
  {
    if p == [] then e else Get(e.children[p[0]], p[1..])
  }

  /** The document with the element at p (and its whole subtree) swapped for sub. */
  function Replace(e: Element, p: Path, sub: Element): Element
    requires ValidPath(e, p)
    decreases p
  {
    if p == [] then sub
    else e.(children := e.children[p[0] := Replace(e.children[p[0]], p[1..], sub)])
  }

  /** Element.setAttribute on the element at p, with all the attribute writes given as a. */
  function SetAttrs(e: Element, p: Path, a: map<string, string>): Element
    requires ValidPath(e, p)
  {
    Replace(e, p, Get(e, p).(attrs := a))
  }

  /**
   * Node.textContent := s on the element at p: its children go, its text
   * becomes s, and reading textContent back gives s. The element keeps its
   * name and attributes.
   */
  function SetText(e: Element, p: Path, s: string): (r: Element)
    requires ValidPath(e, p)
    ensures ValidPath(r, p)
    ensures Get(r, p).name == Get(e, p).name && Get(r, p).attrs == Get(e, p).attrs
    ensures Get(r, p).children == [] && TextContent(Get(r, p)) == s
  {
    var sub := Get(e, p).(text := s, children := []);
    ReplaceInside(e, p, sub, []);
    assert p + [] == p;
    Replace(e, p, sub)
  }

  /** Two elements agree on everything but their attributes and their children's contents. */
  predicate SameShell(a: Element, b: Element)
  {
    a.name == b.name && a.text == b.text && |a.children| == |b.children|
  }

  /** Two elements agree on everything but their children's contents. */
  predicate SameLabel(a: Element, b: Element)
  {
    SameShell(a, b) && a.attrs == b.attrs
  }

  /** Node.textContent: the element's own text, then that of its children in order. */
  function TextContent(e: Element): (s: string)
    decreases e, 1
    ensures e.text <= s
    ensures e.children == [] ==> s == e.text
  {
    e.text + ChildrenText(e, 0)
  }

  function ChildrenText(e: Element, i: nat): string
    decreases e, 0, |e.children| - i
  {
    if i >= |e.children| then "" else TextContent(e.children[i]) + ChildrenText(e, i + 1)
  }

  // ---------------------------------------------------------------------------
  // Document order

  function Under(i: nat, ps: seq<Path>): seq<Path>
  {
    seq(|ps|, k requires 0 <= k < |ps| => [i] + ps[k])
  }

  /** Every element of e, in document order (preorder), as paths from e. */
  function Paths(e: Element): (ps: seq<Path>)
    decreases e, 1
    ensures |ps| > 0 && ps[0] == []
    ensures forall p <- ps :: ValidPath(e, p)
  {
    [[]] + ChildPaths(e, 0)
  }

  /** The paths of the subtrees of children i, i+1, ... of e, in document order. */
  function ChildPaths(e: Element, i: nat): (ps: seq<Path>)
    decreases e, 0, |e.children| - i
    ensures forall p <- ps :: p != [] && i <= p[0] && ValidPath(e, p)
  {
    if i >= |e.children| then []
    else
      var sub := Paths(e.children[i]);
      assert forall p <- Under(i, sub) :: p[1..] in sub;
      Under(i, sub) + ChildPaths(e, i + 1)
  }

  predicate Distinct(ps: seq<Path>)
  {
    forall a, b :: 0 <= a < b < |ps| ==> ps[a] != ps[b]
  }

  /** p comes strictly before q in the document order of e. */
  ghost predicate Precedes(e: Element, p: Path, q: Path)
  {
    exists a, b :: 0 <= a < b < |Paths(e)| && Paths(e)[a] == p && Paths(e)[b] == q
  }

  lemma UnderMember(i: nat, ps: seq<Path>, p: Path)
    ensures p in Under(i, ps) <==> (p != [] && p[0] == i && p[1..] in ps)
  {
    if p != [] && p[0] == i && p[1..] in ps {
      var k :| 0 <= k < |ps| && ps[k] == p[1..];
      assert Under(i, ps)[k] == p;
    }
  }

  /** The document order visits every element: a path is listed exactly when it is valid. */
  lemma {:induction false} PathsComplete(e: Element, p: Path)
    ensures p in Paths(e) <==> ValidPath(e, p)
    decreases e, 1
  {
    if p != [] {
      ChildPathsComplete(e, 0, p);
    }
  }

  lemma {:induction false} ChildPathsComplete(e: Element, i: nat, p: Path)
    requires p != []
    ensures p in ChildPaths(e, i) <==> (i <= p[0] && ValidPath(e, p))
    decreases e, 0, |e.children| - i
  {
    if i < |e.children| {
      ChildPathsComplete(e, i + 1, p);
      PathsComplete(e.children[i], p[1..]);
      UnderMember(i, Paths(e.children[i]), p);
    }
  }

  lemma DistinctConcat(s: seq<Path>, t: seq<Path>)
    requires Distinct(s) && Distinct(t)
    requires forall x <- s, y <- t :: x != y
    ensures Distinct(s + t)
  {
    var u := s + t;
    forall a, b | 0 <= a < b < |u|
      ensures u[a] != u[b]
    {
      if b < |s| {
        assert u[a] == s[a] && u[b] == s[b];
      } else if a >= |s| {
        assert u[a] == t[a - |s|] && u[b] == t[b - |s|];
      } else {
        assert u[a] in s && u[b] in t;
      }
    }
  }

  /** The document order visits every element once. */
  lemma {:induction false} PathsDistinct(e: Element)
    ensures Distinct(Paths(e))
    decreases e, 1
  {
    ChildPathsDistinct(e, 0);
    DistinctConcat([[]], ChildPaths(e, 0));
  }

  lemma {:induction false} ChildPathsDistinct(e: Element, i: nat)
    ensures Distinct(ChildPaths(e, i))
    decreases e, 0, |e.children| - i
  {
    if i < |e.children| {
      var sub := Paths(e.children[i]);
      PathsDistinct(e.children[i]);
      ChildPathsDistinct(e, i + 1);
      var u := Under(i, sub);
      forall a, b | 0 <= a < b < |u|
        ensures u[a] != u[b]
      {
        assert u[a][1..] == sub[a] && u[b][1..] == sub[b];
      }
      DistinctConcat(u, ChildPaths(e, i + 1));
    }
  }

  // ---------------------------------------------------------------------------
  // Document order is tree order

  /**
   * Tree order, defined on paths alone: an ancestor comes before its
   * descendants, and otherwise the path that turns to the smaller child
   * index at the first place the two differ comes first.
   */
  predicate TreeBefore(p: Path, q: Path)
    decreases p
  {
    if p == [] then q != []
    else if q == [] then false
    else if p[0] != q[0] then p[0] < q[0]
    else TreeBefore(p[1..], q[1..])
  }

  /** Tree order is a strict order: no two paths each come before the other, and none before itself. */
  lemma {:induction false} TreeBeforeAsymmetric(p: Path, q: Path)
    ensures !(TreeBefore(p, q) && TreeBefore(q, p))
    decreases p
  {
    if p != [] && q != [] && p[0] == q[0] {
      TreeBeforeAsymmetric(p[1..], q[1..]);
    }
  }

  predicate InTreeOrder(ps: seq<Path>)
  {
    forall a, b :: 0 <= a < b < |ps| ==> TreeBefore(ps[a], ps[b])
  }

  lemma OrderConcat(s: seq<Path>, t: seq<Path>)
    requires InTreeOrder(s) && InTreeOrder(t)
    requires forall x <- s, y <- t :: TreeBefore(x, y)
    ensures InTreeOrder(s + t)
  {
    var u := s + t;
    forall a, b | 0 <= a < b < |u|
      ensures TreeBefore(u[a], u[b])
    {
      if b < |s| {
        assert u[a] == s[a] && u[b] == s[b];
      } else if a >= |s| {
        assert u[a] == t[a - |s|] && u[b] == t[b - |s|];
      } else {
        assert u[a] in s && u[b] in t;
      }
    }
  }

  /** Paths lists the elements in tree order. */
  lemma {:induction false} PathsInTreeOrder(e: Element)
    ensures InTreeOrder(Paths(e))
    decreases e, 1
  {
    ChildPathsInTreeOrder(e, 0);
    OrderConcat([[]], ChildPaths(e, 0));
  }

  lemma {:induction false} ChildPathsInTreeOrder(e: Element, i: nat)
    ensures InTreeOrder(ChildPaths(e, i))
    decreases e, 0, |e.children| - i
  {
    if i < |e.children| {
      var sub := Paths(e.children[i]);
      PathsInTreeOrder(e.children[i]);
      ChildPathsInTreeOrder(e, i + 1);
      var u := Under(i, sub);
      forall a, b | 0 <= a < b < |u|
        ensures TreeBefore(u[a], u[b])
      {
        assert u[a][0] == i && u[a][1..] == sub[a];
        assert u[b][0] == i && u[b][1..] == sub[b];
      }
      forall x, y | x in u && y in ChildPaths(e, i + 1)
        ensures TreeBefore(x, y)
      {
        UnderMember(i, sub, x);
      }
      OrderConcat(u, ChildPaths(e, i + 1));
    }
  }

  /**
   * The document order that Precedes reads off Paths is tree order: among
   * the elements of e, p comes before q exactly when p is an ancestor of q
   * or turns to an earlier child where the two paths part.
   */
  lemma PrecedesIsTreeOrder(e: Element, p: Path, q: Path)
    requires ValidPath(e, p) && ValidPath(e, q)
    ensures Precedes(e, p, q) <==> TreeBefore(p, q)
  {
    var ps := Paths(e);
    PathsInTreeOrder(e);
    if TreeBefore(p, q) {
      PathsComplete(e, p);
      PathsComplete(e, q);
      var a :| 0 <= a < |ps| && ps[a] == p;
      var b :| 0 <= b < |ps| && ps[b] == q;
      TreeBeforeAsymmetric(p, q);
      assert a < b;
    }
  }

  // ---------------------------------------------------------------------------
  // textContent in document order

  /** The own texts of the elements of e at ps, joined in the order of ps. */
  function JoinTexts(e: Element, ps: seq<Path>): string
    requires forall p <- ps :: ValidPath(e, p)
  {
    if ps == [] then "" else Get(e, ps[0]).text + JoinTexts(e, ps[1..])
  }

  lemma {:induction false} JoinConcat(e: Element, xs: seq<Path>, ys: seq<Path>)
    requires forall p <- xs :: ValidPath(e, p)
    requires forall p <- ys :: ValidPath(e, p)
    ensures JoinTexts(e, xs + ys) == JoinTexts(e, xs) + JoinTexts(e, ys)
  {
    if xs == [] {
      assert xs + ys == ys;
    } else {
      assert (xs + ys)[0] == xs[0] && (xs + ys)[1..] == xs[1..] + ys;
      JoinConcat(e, xs[1..], ys);
    }
  }

  lemma {:induction false} JoinUnder(e: Element, i: nat, ps: seq<Path>)
    requires i < |e.children|
    requires forall p <- ps :: ValidPath(e.children[i], p)
    ensures forall p <- Under(i, ps) :: ValidPath(e, p)
    ensures JoinTexts(e, Under(i, ps)) == JoinTexts(e.children[i], ps)
  {
    forall p | p in Under(i, ps)
      ensures ValidPath(e, p)
    {
      UnderMember(i, ps, p);
    }
    if ps != [] {
      var u := Under(i, ps);
      assert u[0][0] == i && u[0][1..] == ps[0];
      assert u[1..] == Under(i, ps[1..]);
      JoinUnder(e, i, ps[1..]);
    }
  }

  /**
   * textContent is the own text of every element of the subtree, the
   * element itself first, concatenated in document order.
   */
  lemma {:induction false} TextContentInDocumentOrder(e: Element)
    ensures TextContent(e) == JoinTexts(e, Paths(e))
    decreases e, 1
  {
    ChildrenTextInDocumentOrder(e, 0);
    assert ([[]] + ChildPaths(e, 0))[1..] == ChildPaths(e, 0);
  }

  lemma {:induction false} ChildrenTextInDocumentOrder(e: Element, i: nat)
    ensures ChildrenText(e, i) == JoinTexts(e, ChildPaths(e, i))
    decreases e, 0, |e.children| - i
  {
    if i < |e.children| {
      var sub := Paths(e.children[i]);
      TextContentInDocumentOrder(e.children[i]);
      ChildrenTextInDocumentOrder(e, i + 1);
      JoinUnder(e, i, sub);
      JoinConcat(e, Under(i, sub), ChildPaths(e, i + 1));
    }
  }

  // ---------------------------------------------------------------------------
  // Paths and replacement

  lemma {:induction false} GetAppend(e: Element, p: Path, t: Path)
    ensures ValidPath(e, p + t) <==> ValidPath(e, p) && ValidPath(Get(e, p), t)
    ensures ValidPath(e, p + t) ==> Get(e, p + t) == Get(Get(e, p), t)
    decreases p
  {
    if p == [] {
      assert p + t == t;
    } else {
      assert (p + t)[0] == p[0] && (p + t)[1..] == p[1..] + t;
      if p[0] < |e.children| {
        GetAppend(e.children[p[0]], p[1..], t);
      }
    }
  }

  /** Inside the replaced subtree, the document is the new subtree. */
  lemma {:induction false} ReplaceInside(e: Element, p: Path, sub: Element, t: Path)
    requires ValidPath(e, p)
    ensures ValidPath(Replace(e, p, sub), p + t) <==> ValidPath(sub, t)
    ensures ValidPath(sub, t) ==> Get(Replace(e, p, sub), p + t) == Get(sub, t)
    decreases p
  {
    if p == [] {
      assert p + t == t;
    } else {
      assert (p + t)[0] == p[0] && (p + t)[1..] == p[1..] + t;
      ReplaceInside(e.children[p[0]], p[1..], sub, t);
    }
  }

  /**
   * Outside the replaced subtree nothing moves: the same paths are valid, each
   * element keeps its label, and one that is not an ancestor of p is untouched.
   */
  lemma {:induction false} ReplaceOutside(e: Element, p: Path, sub: Element, q: Path)
    requires ValidPath(e, p)
    requires !(p <= q)
    ensures ValidPath(Replace(e, p, sub), q) <==> ValidPath(e, q)
    ensures ValidPath(e, q) ==> SameLabel(Get(Replace(e, p, sub), q), Get(e, q))
    ensures ValidPath(e, q) && !(q <= p) ==> Get(Replace(e, p, sub), q) == Get(e, q)
    decreases q
  {
    var r := Replace(e, p, sub);
    if q != [] && q[0] < |e.children| {
      if q[0] == p[0] {
        ReplaceOutside(e.children[p[0]], p[1..], sub, q[1..]);
      } else {
        assert r.children[q[0]] == e.children[q[0]];
      }
    }
  }

  /**
   * Writing the attributes of the element at p changes those attributes and
   * nothing else: every path stays valid and every other element keeps its
   * attributes, and every element keeps its name, text and number of children.
   */
  lemma SetAttrsEffect(e: Element, p: Path, a: map<string, string>, q: Path)
    requires ValidPath(e, p)
    ensures ValidPath(SetAttrs(e, p, a), q) <==> ValidPath(e, q)
    ensures ValidPath(e, q) ==> SameShell(Get(SetAttrs(e, p, a), q), Get(e, q))
    ensures ValidPath(e, q) ==>
      Get(SetAttrs(e, p, a), q).attrs == if q == p then a else Get(e, q).attrs
  {
    var sub := Get(e, p).(attrs := a);
    if p <= q {
      var t := q[|p|..];
      assert q == p + t;
      ReplaceInside(e, p, sub, t);
      GetAppend(e, p, t);
      if t != [] {
        assert ValidPath(sub, t) <==> ValidPath(Get(e, p), t);
        assert ValidPath(sub, t) ==> Get(sub, t) == Get(Get(e, p), t);
      }
    } else {
      ReplaceOutside(e, p, sub, q);
    }
  }

  // ---------------------------------------------------------------------------
  // Queries

  /** What a CSS selector of the forms `[attr="value"]` and `tag` asks of one element. */
  datatype Query = HasAttr(attr: string, value: string) | Named(tag: string)

  predicate Matches(e: Element, q: Query)
  {
    match q
    case HasAttr(a, v) => a in e.attrs && e.attrs[a] == v
    case Named(t) => e.name == t
  }

  /** The first index at or after from whose element matches q, scanning ps in order. */
  function FindFirst(e: Element, ps: seq<Path>, q: Query, from: nat): (r: Option<nat>)
    requires forall p <- ps :: ValidPath(e, p)
    decreases |ps| - from
    ensures r.Some? ==> from <= r.value < |ps| && Matches(Get(e, ps[r.value]), q)
    ensures r.Some? ==> forall k :: from <= k < r.value ==> !Matches(Get(e, ps[k]), q)
    ensures r.None? ==> forall k :: from <= k < |ps| ==> !Matches(Get(e, ps[k]), q)
  {
    if from >= |ps| then None
    else if Matches(Get(e, ps[from]), q) then Some(from)
    else FindFirst(e, ps, q, from + 1)
  }

  /** p is the first element of e, in document order, that matches q. */
  ghost predicate FirstMatch(e: Element, q: Query, p: Path)
  {
    && ValidPath(e, p)
    && Matches(Get(e, p), q)
    && forall p' :: ValidPath(e, p') && Precedes(e, p', p) ==> !Matches(Get(e, p'), q)
  }

  /**
   * Document.querySelector: the first element of the document, the root
   * included, in document order that matches q.
   */
  function QueryFirst(e: Element, q: Query): (r: Option<Path>)
    ensures r.Some? ==> FirstMatch(e, q, r.value)
    ensures r.None? ==> forall p :: ValidPath(e, p) ==> !Matches(Get(e, p), q)
    ensures (forall p :: ValidPath(e, p) ==> !Matches(Get(e, p), q)) ==> r.None?
  {
    var ps := Paths(e);
    PathsDistinct(e);
    forall p | ValidPath(e, p) ensures p in ps { PathsComplete(e, p); }
    match FindFirst(e, ps, q, 0)
    case None => None
    case Some(k) =>
      Some(ps[k])
  }

  /**
   * Element.querySelector: the first proper descendant of e, in document
   * order, that matches q (the element itself is never a candidate).
   */
  function QueryDescendant(e: Element, q: Query): (r: Option<Path>)
    ensures r.Some? ==> r.value != [] && ValidPath(e, r.value) && Matches(Get(e, r.value), q)
    ensures r.Some? ==> forall p :: p != [] && ValidPath(e, p) && Precedes(e, p, r.value) ==> !Matches(Get(e, p), q)
    ensures r.None? ==> forall p :: p != [] && ValidPath(e, p) ==> !Matches(Get(e, p), q)
    ensures (forall p :: p != [] && ValidPath(e, p) ==> !Matches(Get(e, p), q)) ==> r.None?
  {
    var ps := Paths(e);
    PathsDistinct(e);
    forall p | p != [] && ValidPath(e, p) ensures p in ps[1..] {
      PathsComplete(e, p);
      var k :| 0 <= k < |ps| && ps[k] == p;
      assert k != 0;
    }
    match FindFirst(e, ps, q, 1)
    case None => None
    case Some(k) =>
      Some(ps[k])
  }

  /** p is the first proper descendant of e, in document order, that matches q. */
  ghost predicate FirstDescendant(e: Element, q: Query, p: Path)
  {
    && p != [] && ValidPath(e, p) && Matches(Get(e, p), q)
    && forall p' :: p' != [] && ValidPath(e, p') && Precedes(e, p', p) ==> !Matches(Get(e, p'), q)
  }

  /** Element.querySelector returns the first matching descendant, whichever it is. */
  lemma QueryDescendantIsFirst(e: Element, q: Query, p: Path)
    requires FirstDescendant(e, q, p)
    ensures QueryDescendant(e, q) == Some(p)
  {
    var r := QueryDescendant(e, q).value;
    if r != p {
      // Both are listed in document order at different places, so one of
      // them precedes the other, against its being a first match.
      PathsComplete(e, p);
      PathsComplete(e, r);
      PathsDistinct(e);
    }
  }
}
