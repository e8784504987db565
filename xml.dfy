/** The element trees the serialisers build with `xml.etree.ElementTree` and the
    decoders read back.

    Text escaping, the XML declaration and indentation belong to the writer and
    are not part of this model: a document is its tree. */
module Xml {
  import opened Results

  /** An element with its tag (namespace prefix included, as in `image:loc`),
      attributes in insertion order, text (`""` when it has none) and children. */
  datatype Element = Element(tag: string, attrs: seq<(string, string)>, text: string, children: seq<Element>)

  /** An element holding only text, as `SubElement` plus `.text = …` makes it. */
  function Leaf(tag: string, text: string): (e: Element)
    ensures e.tag == tag && e.text == text && e.attrs == [] && e.children == []
  {
    Element(tag, [], text, [])
  }

  function Tags(es: seq<Element>): (r: seq<string>)
    ensures |r| == |es| && forall i :: 0 <= i < |es| ==> r[i] == es[i].tag
  {
    seq(|es|, i requires 0 <= i < |es| => es[i].tag)
  }

  /** The children with a given tag, in document order: what the schema decoder
      gives as the list under that key. */
  function Named(es: seq<Element>, tag: string): (r: seq<Element>)
  {
    if es == [] then []
    else if es[0].tag == tag then [es[0]] + Named(es[1..], tag)
    else Named(es[1..], tag)
  }

  /** What `Named` keeps are children with the tag, and nothing else is left out. */
  lemma {:induction false} NamedSpec(es: seq<Element>, tag: string)
    ensures |Named(es, tag)| <= |es|
    ensures forall i :: 0 <= i < |Named(es, tag)| ==> Named(es, tag)[i].tag == tag && Named(es, tag)[i] in es
    ensures Named(es, tag) == [] <==> forall i :: 0 <= i < |es| ==> es[i].tag != tag
    decreases |es|
  {
    if es != [] {
      NamedSpec(es[1..], tag);
      assert forall i :: 1 <= i < |es| ==> es[i] == es[1..][i - 1];
      assert forall x :: x in es[1..] ==> x in es;
    }
  }

  /** The text of the first child with a given tag, or `None` without one: the
      value under that key of the decoded dictionary. */
  function ChildText(e: Element, tag: string): (r: Option<string>)
    ensures r.Some? <==> exists i :: 0 <= i < |e.children| && e.children[i].tag == tag
  {
    var found := Named(e.children, tag);
    NamedSpec(e.children, tag);
    if found == [] then None
    else
      assert found[0] in e.children;
      Some(found[0].text)
  }

  lemma {:induction false} NamedAppend(a: seq<Element>, b: seq<Element>, tag: string)
    ensures Named(a + b, tag) == Named(a, tag) + Named(b, tag)
  {
    if a == [] {
      assert a + b == b;
    } else {
      var c := a + b;
      assert c != [] && c[0] == a[0] && c[1..] == a[1..] + b;
      NamedAppend(a[1..], b, tag);
      var head := if a[0].tag == tag then [a[0]] else [];
      assert Named(c, tag) == head + (Named(a[1..], tag) + Named(b, tag));
      assert Named(a, tag) == head + Named(a[1..], tag);
      assert head + (Named(a[1..], tag) + Named(b, tag)) == head + Named(a[1..], tag) + Named(b, tag);
    }
  }

  /** The first child with a given tag is the one `ChildText` reads. */
  lemma {:induction false} FirstNamed(es: seq<Element>, tag: string, i: nat)
    requires i < |es| && es[i].tag == tag
    requires forall j :: 0 <= j < i ==> es[j].tag != tag
    ensures Named(es, tag) != [] && Named(es, tag)[0] == es[i]
    decreases i
  {
    if i > 0 {
      FirstNamed(es[1..], tag, i - 1);
    }
  }

  /** `ChildText` reads the first child with the tag. */
  lemma ChildTextAt(e: Element, tag: string, i: nat)
    requires i < |e.children| && e.children[i].tag == tag
    requires forall j :: 0 <= j < i ==> e.children[j].tag != tag
    ensures ChildText(e, tag) == Some(e.children[i].text)
  {
    FirstNamed(e.children, tag, i);
  }

  /** Reads every element with `read`, failing as a whole with the first failure:
      the schema pass, which either decodes the whole document or raises. */
  function ReadAll<T>(es: seq<Element>, read: Element -> Result<T>): (r: Result<seq<T>>)
    ensures r.Success? <==> forall i :: 0 <= i < |es| ==> read(es[i]).Success?
    ensures r.Success? ==> |r.value| == |es| && forall i :: 0 <= i < |es| ==> read(es[i]) == Success(r.value[i])
    decreases |es|
  {
    if es == [] then Success([])
    else match (read(es[0]), ReadAll(es[1..], read))
      case (Success(first), Success(rest)) =>
        assert forall i :: 1 <= i < |es| ==> es[i] == es[1..][i - 1];
        Success([first] + rest)
      case (Failure(err), _) => Failure(err)
      case (_, Failure(err)) =>
        assert forall i :: 1 <= i < |es| ==> es[i] == es[1..][i - 1];
        Failure(err)
  }

  /** Elements that each read as the matching value read as those values. */
  lemma ReadAllEach<T>(es: seq<Element>, read: Element -> Result<T>, vs: seq<T>)
    requires |es| == |vs| && forall i :: 0 <= i < |es| ==> read(es[i]) == Success(vs[i])
    ensures ReadAll(es, read) == Success(vs)
  {
    var r := ReadAll(es, read);
    assert forall i :: 0 <= i < |vs| ==> r.value[i] == vs[i];
    assert r.value == vs;
  }

  /** The children all carrying one tag are all found under it. */
  lemma {:induction false} NamedAll(es: seq<Element>, tag: string)
    requires forall i :: 0 <= i < |es| ==> es[i].tag == tag
    ensures Named(es, tag) == es
    decreases |es|
  {
    if es != [] {
      assert forall i :: 1 <= i < |es| ==> es[i] == es[1..][i - 1];
      NamedAll(es[1..], tag);
      assert es == [es[0]] + es[1..];
    }
  }
}
