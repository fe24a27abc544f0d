/**
 * The editing logic of ScoreManager: identifiers stamped on every element when
 * a document is loaded, lookup of an element by identifier, diatonic
 * transposition of a note, and replacement of a note by a rest.
 */
module Score {
  import opened Tree
  import opened Pitch

  const IdAttr := "id"
  const XmlIdAttr := "xml:id"
  /** Every generated identifier starts with this. */
  const IdPrefix := "nl-"

  /** e has an id or an xml:id attribute. */
  predicate HasId(e: Element)
  {
    IdAttr in e.attrs || XmlIdAttr in e.attrs
  }

  /** e answers to key, by its xml:id or by its id. */
  predicate Carries(e: Element, key: string)
  {
    Matches(e, HasAttr(XmlIdAttr, key)) || Matches(e, HasAttr(IdAttr, key))
  }

  // ---------------------------------------------------------------------------
  // ensureUniqueIDs

  /**
   * The test stamping makes, having an id or an xml:id, is the same as
   * answering to some key in a lookup.
   */
  lemma HasIdCarries(e: Element)
    ensures HasId(e) <==> exists key :: Carries(e, key)
  {
    if IdAttr in e.attrs {
      assert Carries(e, e.attrs[IdAttr]);
    } else if XmlIdAttr in e.attrs {
      assert Carries(e, e.attrs[XmlIdAttr]);
    }
  }

  /** How many of the first i elements of ps have no identifier in e. */
  function Unstamped(e: Element, ps: seq<Path>, i: nat): (n: nat)
    requires i <= |ps| && forall p <- ps :: ValidPath(e, p)
    ensures n <= i
  {
    if i == 0 then 0 else Unstamped(e, ps, i - 1) + (if HasId(Get(e, ps[i - 1])) then 0 else 1)
  }

  /**
   * The stamping counter counts what it should: it is 0 exactly when all of
   * the first i elements already have an identifier, and i exactly when none
   * of them has.
   */
  lemma {:induction false} UnstampedCounts(e: Element, ps: seq<Path>, i: nat)
    requires i <= |ps| && forall p <- ps :: ValidPath(e, p)
    ensures Unstamped(e, ps, i) == 0 <==> forall k :: 0 <= k < i ==> HasId(Get(e, ps[k]))
    ensures Unstamped(e, ps, i) == i <==> forall k :: 0 <= k < i ==> !HasId(Get(e, ps[k]))
  {
    if i > 0 {
      UnstampedCounts(e, ps, i - 1);
    }
  }

  /**
   * The attributes that element j of the document order of e carries once
   * stamped: unchanged if it has an id or xml:id, otherwise both set to the
   * next fresh name, which nameOf gives for the number of elements stamped
   * before it.
   */
  function StampedAttrs(e: Element, j: nat, nameOf: nat -> string): map<string, string>
    requires j < |Paths(e)|
  {
    var el := Get(e, Paths(e)[j]);
    if HasId(el) then el.attrs
    else
      var id := IdPrefix + nameOf(Unstamped(e, Paths(e), j));
      el.attrs[IdAttr := id][XmlIdAttr := id]
  }

  /** r is orig with every element stamped: only attributes differ, as StampedAttrs says. */
  ghost predicate StampedFrom(orig: Element, r: Element, nameOf: nat -> string)
  {
    && (forall q :: ValidPath(r, q) <==> ValidPath(orig, q))
    && (forall q :: ValidPath(orig, q) ==> ValidPath(r, q) && SameShell(Get(r, q), Get(orig, q)))
    && (forall j :: 0 <= j < |Paths(orig)| ==>
          ValidPath(r, Paths(orig)[j]) && Get(r, Paths(orig)[j]).attrs == StampedAttrs(orig, j, nameOf))
  }

  /** r differs from doc at most in attributes: the same paths, names, texts and child counts. */
  ghost predicate SameShape(doc: Element, r: Element)
  {
    && (forall q :: ValidPath(r, q) <==> ValidPath(doc, q))
    && (forall q :: ValidPath(doc, q) ==> SameShell(Get(r, q), Get(doc, q)))
  }

  /**
   * The first i elements of the document order of doc carry their stamped
   * attributes in r, and the others their original ones.
   */
  ghost predicate StampedUpTo(doc: Element, r: Element, i: nat, nameOf: nat -> string)
  {
    && SameShape(doc, r)
    && (forall j :: 0 <= j < |Paths(doc)| ==>
          Get(r, Paths(doc)[j]).attrs ==
            if j < i then StampedAttrs(doc, j, nameOf) else Get(doc, Paths(doc)[j]).attrs)
  }

  lemma SetAttrsKeepsShape(doc: Element, r: Element, p: Path, a: map<string, string>)
    requires SameShape(doc, r) && ValidPath(r, p)
    ensures SameShape(doc, SetAttrs(r, p, a))
  {
    forall q
      ensures ValidPath(SetAttrs(r, p, a), q) <==> ValidPath(doc, q)
      ensures ValidPath(doc, q) ==> SameShell(Get(SetAttrs(r, p, a), q), Get(doc, q))
    {
      SetAttrsEffect(r, p, a, q);
    }
  }

  /** Stamping element i of the document order extends the stamped prefix by one. */
  lemma StampStep(doc: Element, r: Element, i: nat, nameOf: nat -> string)
    requires i < |Paths(doc)|
    requires StampedUpTo(doc, r, i, nameOf)
    requires !HasId(Get(doc, Paths(doc)[i]))
    ensures StampedUpTo(doc, SetAttrs(r, Paths(doc)[i], StampedAttrs(doc, i, nameOf)), i + 1, nameOf)
  {
    var ps := Paths(doc);
    var p := ps[i];
    var a := StampedAttrs(doc, i, nameOf);
    var r' := SetAttrs(r, p, a);
    SetAttrsKeepsShape(doc, r, p, a);
    PathsDistinct(doc);
    forall j | 0 <= j < |ps|
      ensures Get(r', ps[j]).attrs == if j < i + 1 then StampedAttrs(doc, j, nameOf) else Get(doc, ps[j]).attrs
    {
      SetAttrsEffect(r, p, a, ps[j]);
      assert j != i ==> ps[j] != p;
    }
  }

  /** Element i of the document order already has an identifier: visiting it changes nothing. */
  lemma StampSkip(doc: Element, r: Element, i: nat, nameOf: nat -> string)
    requires i < |Paths(doc)|
    requires StampedUpTo(doc, r, i, nameOf)
    requires HasId(Get(doc, Paths(doc)[i]))
    ensures StampedUpTo(doc, r, i + 1, nameOf)
  {
  }

  /** Once every element has been visited, r is doc stamped. */
  lemma StampDone(doc: Element, r: Element, nameOf: nat -> string)
    requires StampedUpTo(doc, r, |Paths(doc)|, nameOf)
    ensures StampedFrom(doc, r, nameOf)
  {
  }

  /**
   * ensureUniqueIDs: visit every element in document order and give each one
   * that has neither id nor xml:id a fresh name, written to both attributes.
   * The random suffix of the source is drawn from nameOf instead.
   */
  method StampIds(doc: Element, nameOf: nat -> string) returns (r: Element)
    ensures StampedFrom(doc, r, nameOf)
  {
    var elements := Paths(doc);
    r := doc;
    var k := 0;
    for i := 0 to |elements|
      invariant StampedUpTo(doc, r, i, nameOf)
      invariant k == Unstamped(doc, elements, i)
    {
      var el := Get(r, elements[i]);
      assert el.attrs == Get(doc, elements[i]).attrs;
      if !HasId(el) {
        var uniqueId := IdPrefix + nameOf(k);
        StampStep(doc, r, i, nameOf);
        assert el.attrs[IdAttr := uniqueId][XmlIdAttr := uniqueId] == StampedAttrs(doc, i, nameOf);
        r := SetAttrs(r, elements[i], el.attrs[IdAttr := uniqueId][XmlIdAttr := uniqueId]);
        k := k + 1;
        assert k == Unstamped(doc, elements, i + 1);
      } else {
        StampSkip(doc, r, i, nameOf);
        assert k == Unstamped(doc, elements, i + 1);
      }
    }
    StampDone(doc, r, nameOf);
  }

  /**
   * After stamping every element has an identifier; an element that had one
   * keeps its attributes; an element that had none gets the same generated
   * name, starting with "nl-", as both id and xml:id, and no other change.
   */
  lemma StampedElement(orig: Element, r: Element, nameOf: nat -> string, q: Path)
    requires StampedFrom(orig, r, nameOf)
    requires ValidPath(orig, q)
    ensures ValidPath(r, q) && HasId(Get(r, q))
    ensures HasId(Get(orig, q)) ==> Get(r, q).attrs == Get(orig, q).attrs
    ensures !HasId(Get(orig, q)) ==>
      && IdAttr in Get(r, q).attrs
      && IdPrefix <= Get(r, q).attrs[IdAttr]
      && Get(r, q).attrs == Get(orig, q).attrs[IdAttr := Get(r, q).attrs[IdAttr]][XmlIdAttr := Get(r, q).attrs[IdAttr]]
  {
    PathsComplete(orig, q);
    var j :| 0 <= j < |Paths(orig)| && Paths(orig)[j] == q;
  }

  /** After stamping, no element of the document is without an identifier. */
  lemma EveryElementHasId(orig: Element, r: Element, nameOf: nat -> string)
    requires StampedFrom(orig, r, nameOf)
    ensures forall q :: ValidPath(r, q) ==> HasId(Get(r, q))
  {
    forall q | ValidPath(r, q)
      ensures HasId(Get(r, q))
    {
      StampedElement(orig, r, nameOf, q);
    }
  }

  // ---------------------------------------------------------------------------
  // getElementById

  /**
   * getElementById: the first element in document order whose xml:id is key;
   * failing that, the first whose id is key.
   */
  function ElementById(d: Element, key: string): (r: Option<Path>)
    ensures r.Some? ==> ValidPath(d, r.value) && Carries(Get(d, r.value), key)
    ensures r.None? ==> forall q :: ValidPath(d, q) ==> !Carries(Get(d, q), key)
    ensures (forall q :: ValidPath(d, q) ==> !Carries(Get(d, q), key)) ==> r.None?
    ensures (exists q :: ValidPath(d, q) && Matches(Get(d, q), HasAttr(XmlIdAttr, key))) ==>
      r.Some? && FirstMatch(d, HasAttr(XmlIdAttr, key), r.value)
    ensures (forall q :: ValidPath(d, q) ==> !Matches(Get(d, q), HasAttr(XmlIdAttr, key))) && r.Some? ==>
      FirstMatch(d, HasAttr(IdAttr, key), r.value)
  {
    match QueryFirst(d, HasAttr(XmlIdAttr, key))
    case Some(p) => Some(p)
    case None => QueryFirst(d, HasAttr(IdAttr, key))
  }

  // ---------------------------------------------------------------------------
  // mutatePitch

  /** The step text read: empty text counts as C. */
  function ReadStep(text: string): (r: string)
    ensures r != []
    ensures text == "" ==> r == Steps[0]
    ensures text != "" ==> r == text
  {
    if text == "" then "C" else text
  }

  /** The octave read: empty text counts as 4, the rest goes through parseInt (None is NaN). */
  function ReadOctave(text: string): (r: Option<int>)
    ensures text == "" ==> r == Some(4)
    ensures text != "" ==> r == ParseInt(text)
    ensures r.None? <==> text != "" && LeadingDigits(Unsigned(TrimStart(text))) == 0
  {
    if text == "" then
      assert "4"[0] in "4";
      ParseDigits("4");
      assert DigitsValue("4") == 4 by { assert "4"[..0] == ""; }
      ParseInt("4")
    else ParseInt(text)
  }

  /** The step and octave after a shift; a NaN octave stays NaN, as NaN + 1 and NaN - 1 are NaN. */
  function NewPitch(step: string, octave: Option<int>, direction: int): (r: (string, Option<int>))
    ensures r.0 in Steps
    ensures octave.None? <==> r.1.None?
    ensures octave.Some? ==> (r.0, r.1.value) == ShiftPitch(step, octave.value, direction)
  {
    var shifted := ShiftPitch(step, if octave.Some? then octave.value else 0, direction);
    (shifted.0, if octave.Some? then Some(shifted.1) else None)
  }

  /** The step and octave elements that mutatePitch rewrites. */
  datatype PitchSite = PitchSite(step: Path, octave: Path)

  /** Element.querySelector(tag) on the element at n, as a path from the root of d. */
  function Below(d: Element, n: Path, tag: string): (r: Option<Path>)
    requires ValidPath(d, n)
    ensures r.None? <==> QueryDescendant(Get(d, n), Named(tag)).None?
    ensures r.Some? ==> n < r.value && ValidPath(d, r.value) && Get(d, r.value).name == tag
    ensures r.Some? ==> r.value == n + QueryDescendant(Get(d, n), Named(tag)).value
  {
    match QueryDescendant(Get(d, n), Named(tag))
    case None => None
    case Some(p) =>
      GetAppend(d, n, p);
      Some(n + p)
  }

  /**
   * note.querySelector("pitch") for the note with identifier id: the first
   * pitch below it in document order; None when the note or the pitch is
   * missing.
   */
  function PitchOf(d: Element, id: string): (r: Option<Path>)
    ensures ElementById(d, id).None? ==> r.None?
    ensures ElementById(d, id).Some? ==> r == Below(d, ElementById(d, id).value, "pitch")
    ensures r.Some? ==> ValidPath(d, r.value) && Get(d, r.value).name == "pitch"
  {
    match ElementById(d, id)
    case None => None
    case Some(n) => Below(d, n, "pitch")
  }

  /**
   * The first step and the first octave below the first pitch below the note
   * with identifier id, as paths in d; None when any of the four lookups fails.
   */
  function PitchTargets(d: Element, id: string): (r: Option<PitchSite>)
    ensures ElementById(d, id).None? ==> r.None?
    ensures r.Some? ==>
      && ElementById(d, id).Some?
      && ElementById(d, id).value < r.value.step
      && ElementById(d, id).value < r.value.octave
      && ValidPath(d, r.value.step) && Get(d, r.value.step).name == "step"
      && ValidPath(d, r.value.octave) && Get(d, r.value.octave).name == "octave"
    ensures (ElementById(d, id).Some? &&
             QueryDescendant(Get(d, ElementById(d, id).value), Named("pitch")).None?) ==> r.None?
    ensures r.Some? <==> PitchOf(d, id).Some?
                         && Below(d, PitchOf(d, id).value, "step").Some?
                         && Below(d, PitchOf(d, id).value, "octave").Some?
    ensures r.Some? ==>
      r.value == PitchSite(Below(d, PitchOf(d, id).value, "step").value,
                           Below(d, PitchOf(d, id).value, "octave").value)
  {
    match ElementById(d, id)
    case None => None
    case Some(n) =>
      match Below(d, n, "pitch")
      case None => None
      case Some(pitch) =>
        var stepEl := Below(d, pitch, "step");
        var octEl := Below(d, pitch, "octave");
        if stepEl.None? || octEl.None? then None
        else Some(PitchSite(stepEl.value, octEl.value))
  }

  /**
   * The document after mutatePitch(id, direction): the step text becomes the
   * shifted letter and the octave text the shifted octave. The octave write
   * is lost when the octave element lay inside the step element, whose
   * children the step write removed.
   */
  function Transposed(d: Element, id: string, direction: int): (r: Element)
    ensures PitchTargets(d, id).None? ==> r == d
    ensures ElementById(d, id).None? ==> r == d
    ensures PitchOf(d, id).None? ==> r == d
    ensures (PitchOf(d, id).Some? &&
             (Below(d, PitchOf(d, id).value, "step").None? ||
              Below(d, PitchOf(d, id).value, "octave").None?)) ==> r == d
  {
    match PitchTargets(d, id)
    case None => d
    case Some(site) =>
      var np := NewPitch(ReadStep(TextContent(Get(d, site.step))),
                         ReadOctave(TextContent(Get(d, site.octave))), direction);
      var d1 := SetText(d, site.step, np.0);
      if ValidPath(d1, site.octave) then SetText(d1, site.octave, OctaveText(np.1)) else d1
  }

  /** Two textContent writes to elements s and o, neither inside the other, both land. */
  lemma TwoWrites(d: Element, s: Path, o: Path, t1: string, t2: string)
    requires ValidPath(d, s) && ValidPath(d, o)
    requires !(s <= o) && !(o <= s)
    ensures ValidPath(SetText(d, s, t1), o)
    ensures var r := SetText(SetText(d, s, t1), o, t2);
            && ValidPath(r, s) && Get(r, s) == Get(d, s).(text := t1, children := [])
            && ValidPath(r, o) && Get(r, o) == Get(d, o).(text := t2, children := [])
  {
    var sub1 := Get(d, s).(text := t1, children := []);
    var d1 := SetText(d, s, t1);
    ReplaceOutside(d, s, sub1, o);
    var sub2 := Get(d1, o).(text := t2, children := []);
    ReplaceInside(d, s, sub1, []);
    ReplaceInside(d1, o, sub2, []);
    assert s + [] == s && o + [] == o;
    ReplaceOutside(d1, o, sub2, s);
  }

  /** Two textContent writes leave the label of every element outside both subtrees alone. */
  lemma TwoWritesOutside(d: Element, s: Path, o: Path, t1: string, t2: string, q: Path)
    requires ValidPath(d, s) && ValidPath(d, o)
    requires !(s <= o) && !(o <= s)
    requires ValidPath(d, q) && !(s <= q) && !(o <= q)
    ensures ValidPath(SetText(d, s, t1), o)
    ensures ValidPath(SetText(SetText(d, s, t1), o, t2), q)
    ensures SameLabel(Get(SetText(SetText(d, s, t1), o, t2), q), Get(d, q))
  {
    var sub1 := Get(d, s).(text := t1, children := []);
    var d1 := SetText(d, s, t1);
    ReplaceOutside(d, s, sub1, o);
    ReplaceOutside(d, s, sub1, q);
    ReplaceOutside(d1, o, Get(d1, o).(text := t2, children := []), q);
  }

  /**
   * When neither the step nor the octave element contains the other (the
   * MusicXML shape, where both are children of pitch), transposition writes
   * a scale letter into the step and the shifted octave, as text that
   * parseInt reads back, into the octave. Both elements keep their name and
   * attributes, identifiers included; only their content is replaced.
   */
  lemma TransposedWrites(d: Element, id: string, direction: int)
    requires PitchTargets(d, id).Some?
    requires !(PitchTargets(d, id).value.step <= PitchTargets(d, id).value.octave)
    requires !(PitchTargets(d, id).value.octave <= PitchTargets(d, id).value.step)
    ensures var site := PitchTargets(d, id).value;
            var np := NewPitch(ReadStep(TextContent(Get(d, site.step))),
                               ReadOctave(TextContent(Get(d, site.octave))), direction);
            var r := Transposed(d, id, direction);
            && ValidPath(r, site.step) && ValidPath(r, site.octave)
            && Get(r, site.step) == Get(d, site.step).(text := np.0, children := [])
            && Get(r, site.octave) == Get(d, site.octave).(text := OctaveText(np.1), children := [])
            && TextContent(Get(r, site.step)) == np.0 && np.0 in Steps
            && TextContent(Get(r, site.octave)) == OctaveText(np.1)
            && (np.1.Some? ==> ParseInt(TextContent(Get(r, site.octave))) == np.1)
  {
    var site := PitchTargets(d, id).value;
    var np := NewPitch(ReadStep(TextContent(Get(d, site.step))),
                       ReadOctave(TextContent(Get(d, site.octave))), direction);
    TwoWrites(d, site.step, site.octave, np.0, OctaveText(np.1));
  }

  /**
   * Under the same condition, every element outside the step and octave
   * subtrees keeps its name, attributes, text and number of children.
   */
  lemma TransposedKeepsOthers(d: Element, id: string, direction: int, q: Path)
    requires PitchTargets(d, id).Some?
    requires !(PitchTargets(d, id).value.step <= PitchTargets(d, id).value.octave)
    requires !(PitchTargets(d, id).value.octave <= PitchTargets(d, id).value.step)
    requires ValidPath(d, q)
    requires !(PitchTargets(d, id).value.step <= q) && !(PitchTargets(d, id).value.octave <= q)
    ensures ValidPath(Transposed(d, id, direction), q)
    ensures SameLabel(Get(Transposed(d, id, direction), q), Get(d, q))
  {
    var site := PitchTargets(d, id).value;
    var np := NewPitch(ReadStep(TextContent(Get(d, site.step))),
                       ReadOctave(TextContent(Get(d, site.octave))), direction);
    TwoWritesOutside(d, site.step, site.octave, np.0, OctaveText(np.1), q);
  }

  // ---------------------------------------------------------------------------
  // deleteNote

  /** The textContent of the first descendant named tag, or "" when there is none. */
  function DescendantText(note: Element, tag: string): string
  {
    match QueryDescendant(note, Named(tag))
    case None => ""
    case Some(p) => TextContent(Get(note, p))
  }

  /**
   * The text copied into the rest is empty when the note has no descendant
   * named tag, and otherwise is the textContent of the first such descendant
   * in document order.
   */
  lemma DescendantTextOf(note: Element, tag: string)
    ensures (forall p :: p != [] && ValidPath(note, p) ==> Get(note, p).name != tag) ==>
      DescendantText(note, tag) == ""
    ensures forall p :: FirstDescendant(note, Named(tag), p) ==>
      DescendantText(note, tag) == TextContent(Get(note, p))
  {
    forall p | FirstDescendant(note, Named(tag), p)
      ensures QueryDescendant(note, Named(tag)) == Some(p)
    {
      QueryDescendantIsFirst(note, Named(tag), p);
    }
  }

  /**
   * The rest that deleteNote puts in place of note: no attributes (so no
   * identifier), and children duration then type, each copying the note's
   * text and each present only when that text is non-empty.
   */
  function RestFor(note: Element): (r: Element)
    ensures r.name == "rest" && r.attrs == map[] && r.text == ""
    ensures TextContent(r) == DescendantText(note, "duration") + DescendantText(note, "type")
    ensures forall c <- r.children :: c.attrs == map[] && c.children == [] && c.text != ""
    ensures |r.children| == (if DescendantText(note, "duration") != "" then 1 else 0)
                          + (if DescendantText(note, "type") != "" then 1 else 0)
    ensures DescendantText(note, "duration") != "" ==>
      r.children[0] == Element("duration", map[], DescendantText(note, "duration"), [])
    ensures DescendantText(note, "type") != "" ==>
      r.children[|r.children| - 1] == Element("type", map[], DescendantText(note, "type"), [])
  {
    var duration := DescendantText(note, "duration");
    var typ := DescendantText(note, "type");
    var durEl := if duration != "" then [Element("duration", map[], duration, [])] else [];
    var typeEl := if typ != "" then [Element("type", map[], typ, [])] else [];
    var r := Element("rest", map[], "", durEl + typeEl);
    assert TextContent(r) == duration + typ by {
      RestText(durEl + typeEl);
    }
    r
  }

  /** The rest for note is built from an optional duration child followed by an optional type child. */
  lemma RestForShape(note: Element)
    ensures var duration := DescendantText(note, "duration");
            var typ := DescendantText(note, "type");
            RestFor(note) == Element("rest", map[], "",
              (if duration != "" then [Element("duration", map[], duration, [])] else []) +
              (if typ != "" then [Element("type", map[], typ, [])] else []))
  {
  }

  lemma RestText(cs: seq<Element>)
    requires |cs| <= 2 && forall c <- cs :: c.children == []
    ensures TextContent(Element("rest", map[], "", cs)) ==
      (if |cs| > 0 then cs[0].text else "") + (if |cs| > 1 then cs[1].text else "")
  {
    var r := Element("rest", map[], "", cs);
    if |cs| == 0 {
      assert ChildrenText(r, 0) == "";
    } else {
      assert cs[0] in cs;
      assert ChildrenText(cs[0], 0) == "";
      assert TextContent(cs[0]) == cs[0].text;
      if |cs| == 1 {
        assert ChildrenText(r, 1) == "";
        assert ChildrenText(r, 0) == cs[0].text;
      } else {
        assert cs[1] in cs;
        assert ChildrenText(cs[1], 0) == "";
        assert TextContent(cs[1]) == cs[1].text;
        assert ChildrenText(r, 2) == "";
        assert ChildrenText(r, 1) == cs[1].text;
        assert ChildrenText(r, 0) == cs[0].text + cs[1].text;
      }
    }
  }

  /** No element of a rest built by RestFor carries an attribute. */
  lemma RestHasNoAttrs(note: Element, t: Path)
    requires ValidPath(RestFor(note), t)
    ensures Get(RestFor(note), t).attrs == map[]
  {
    var r := RestFor(note);
    if t != [] {
      assert r.children[t[0]] in r.children;
    }
  }

  /** The document after deleteNote(id): the note, if found, replaced in place by its rest. */
  function NoteToRest(d: Element, id: string): (r: Element)
    ensures ElementById(d, id).None? ==> r == d
    ensures ElementById(d, id).Some? ==>
      var n := ElementById(d, id).value;
      ValidPath(r, n) && Get(r, n) == RestFor(Get(d, n))
  {
    match ElementById(d, id)
    case None => d
    case Some(n) =>
      ReplaceInside(d, n, RestFor(Get(d, n)), []);
      assert n + [] == n;
      Replace(d, n, RestFor(Get(d, n)))
  }

  /**
   * Deleting a note leaves every element outside its subtree where it was:
   * the same paths are valid, each keeps its label, and an element that is
   * not an ancestor of the note is untouched, subtree and all.
   */
  lemma NoteToRestKeepsOthers(d: Element, id: string, q: Path)
    requires ElementById(d, id).Some?
    requires !(ElementById(d, id).value <= q)
    ensures ValidPath(NoteToRest(d, id), q) <==> ValidPath(d, q)
    ensures ValidPath(d, q) ==> SameLabel(Get(NoteToRest(d, id), q), Get(d, q))
    ensures ValidPath(d, q) && !(q <= ElementById(d, id).value) ==> Get(NoteToRest(d, id), q) == Get(d, q)
  {
    var n := ElementById(d, id).value;
    ReplaceOutside(d, n, RestFor(Get(d, n)), q);
  }

  /** No element inside the rest that replaced the note at n answers to any identifier. */
  lemma RestInside(d: Element, n: Path, key: string, p: Path)
    requires ValidPath(d, n) && n <= p
    requires ValidPath(Replace(d, n, RestFor(Get(d, n))), p)
    ensures !Carries(Get(Replace(d, n, RestFor(Get(d, n))), p), key)
  {
    var rest := RestFor(Get(d, n));
    forall t | ValidPath(rest, t)
      ensures Get(rest, t).attrs == map[]
    {
      RestHasNoAttrs(Get(d, n), t);
    }
    if Carries(Get(Replace(d, n, rest), p), key) {
      FoundOutside(d, n, rest, key, p);
    }
  }

  /**
   * After deleting a note, an identifier is still found exactly when some
   * element outside the deleted note's subtree carried it: the rest itself
   * carries none. So the deleted id is gone unless another element shares it.
   */
  lemma NoteToRestLookup(d: Element, id: string, key: string)
    requires ElementById(d, id).Some?
    ensures ElementById(NoteToRest(d, id), key).Some? <==>
      exists q :: ValidPath(d, q) && !(ElementById(d, id).value <= q) && Carries(Get(d, q), key)
  {
    var n := ElementById(d, id).value;
    var rest := RestFor(Get(d, n));
    assert NoteToRest(d, id) == Replace(d, n, rest);
    forall t | ValidPath(rest, t)
      ensures Get(rest, t).attrs == map[]
    {
      RestHasNoAttrs(Get(d, n), t);
    }
    LookupAfterReplace(d, n, rest, key);
  }

  /**
   * Replacing the subtree at n by one whose elements carry no attributes
   * leaves exactly the identifiers carried outside that subtree findable.
   */
  lemma LookupAfterReplace(d: Element, n: Path, sub: Element, key: string)
    requires ValidPath(d, n)
    requires forall t :: ValidPath(sub, t) ==> Get(sub, t).attrs == map[]
    ensures ElementById(Replace(d, n, sub), key).Some? <==>
      exists q :: ValidPath(d, q) && !(n <= q) && Carries(Get(d, q), key)
  {
    var found := ElementById(Replace(d, n, sub), key);
    if found.Some? {
      FoundOutside(d, n, sub, key, found.value);
    }
    if q :| ValidPath(d, q) && !(n <= q) && Carries(Get(d, q), key) {
      ReplaceOutside(d, n, sub, q);
      assert ValidPath(Replace(d, n, sub), q) && Carries(Get(Replace(d, n, sub), q), key);
    }
  }

  /** An element that carries key after the replacement lies outside it and carried key before. */
  lemma FoundOutside(d: Element, n: Path, sub: Element, key: string, p: Path)
    requires ValidPath(d, n)
    requires forall t :: ValidPath(sub, t) ==> Get(sub, t).attrs == map[]
    requires ValidPath(Replace(d, n, sub), p) && Carries(Get(Replace(d, n, sub), p), key)
    ensures ValidPath(d, p) && !(n <= p) && Carries(Get(d, p), key)
  {
    if n <= p {
      var t := p[|n|..];
      assert p == n + t;
      ReplaceInside(d, n, sub, t);
      assert false;
    }
    ReplaceOutside(d, n, sub, p);
  }

  // ---------------------------------------------------------------------------
  // The ScoreManager object

  /**
   * The editing state of the score manager: the loaded document, if any.
   * Parsing, serialisation and the rendering engine are outside the model.
   */
  class ScoreManager {
    var doc: Option<Element>

    constructor()
      ensures doc == None
    {
      doc := None;
    }

    /** load: take an already-parsed document and stamp identifiers on it. */
    method Load(tree: Element, nameOf: nat -> string)
      modifies this
      ensures doc.Some? && StampedFrom(tree, doc.value, nameOf)
    {
      var stamped := StampIds(tree, nameOf);
      doc := Some(stamped);
    }

    /** getXML: "" without a document; otherwise the serialiser's text for it. */
    function GetXml(serialize: Element -> string): (s: string)
      reads this
      ensures doc.None? ==> s == ""
      ensures doc.Some? ==> s == serialize(doc.value)
    {
      if doc.None? then "" else serialize(doc.value)
    }

    /** getElementById: no element without a document. */
    function GetElementById(id: string): (r: Option<Path>)
      reads this
      ensures doc.None? ==> r.None?
      ensures doc.Some? ==> r == ElementById(doc.value, id)
    {
      if doc.None? then None else ElementById(doc.value, id)
    }

    /** select: true exactly when the loaded document has an element with that xml:id or id. */
    function Select(id: string): (b: bool)
      reads this
      ensures b ==> doc.Some? && exists q :: ValidPath(doc.value, q) && Carries(Get(doc.value, q), id)
      ensures (doc.Some? && exists q :: ValidPath(doc.value, q) && Carries(Get(doc.value, q), id)) ==> b
    {
      GetElementById(id).Some?
    }

    /** mutatePitch: shift the note's step by direction, wrapping one octave at most. */
    method MutatePitch(id: string, direction: int)
      modifies this
      ensures doc == if old(doc).None? then None else Some(Transposed(old(doc).value, id, direction))
    {
      if doc.None? {
        return;
      }
      var d := doc.value;
      var site := PitchTargets(d, id);
      if site.None? {
        return;
      }
      var stepEl, octEl := site.value.step, site.value.octave;
      var currentStep := ReadStep(TextContent(Get(d, stepEl)));
      var currentOct := ReadOctave(TextContent(Get(d, octEl)));

      ghost var np := NewPitch(currentStep, currentOct, direction);
      var stepIndex := IndexOf(currentStep);
      if stepIndex == -1 {
        stepIndex := 0;
      }
      assert stepIndex == ScaleIndex(currentStep);
      stepIndex := stepIndex + direction;
      var newOct := currentOct;
      if stepIndex > 6 {
        stepIndex := 0;
        newOct := if newOct.Some? then Some(newOct.value + 1) else None;
      } else if stepIndex < 0 {
        stepIndex := 6;
        newOct := if newOct.Some? then Some(newOct.value - 1) else None;
      }
      assert Steps[stepIndex] == np.0 && newOct == np.1;

      ghost var before := d;
      d := SetText(d, stepEl, Steps[stepIndex]);
      // An octave element inside the step element was detached by the write above.
      if ValidPath(d, octEl) {
        d := SetText(d, octEl, OctaveText(newOct));
      }
      assert d == Transposed(before, id, direction) by {
        assert PitchTargets(before, id) == Some(PitchSite(stepEl, octEl));
      }
      doc := Some(d);
    }

    /** deleteNote: replace the note, in its parent's child list, by a rest with its duration and type. */
    method DeleteNote(id: string)
      modifies this
      ensures doc == if old(doc).None? then None else Some(NoteToRest(old(doc).value, id))
    {
      if doc.None? {
        return;
      }
      var d := doc.value;
      var found := ElementById(d, id);
      if found.None? {
        return;
      }
      var note := Get(d, found.value);
      var duration := DescendantText(note, "duration");
      var typ := DescendantText(note, "type");

      ghost var durEl := if duration != "" then [Element("duration", map[], duration, [])] else [];
      ghost var typeEl := if typ != "" then [Element("type", map[], typ, [])] else [];
      RestForShape(note);
      var rest := Element("rest", map[], "", []);
      if duration != "" {
        rest := rest.(children := rest.children + [Element("duration", map[], duration, [])]);
      }
      assert rest.children == durEl;
      if typ != "" {
        rest := rest.(children := rest.children + [Element("type", map[], typ, [])]);
      }
      assert rest == Element("rest", map[], "", durEl + typeEl);
      doc := Some(Replace(d, found.value, rest));
    }
  }
}
