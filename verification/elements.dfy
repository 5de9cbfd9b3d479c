/** Schema-API commands as XML-like element trees, and the command names the
    Solr Schema API understands. */
module Elements {
  import opened Wrappers

  /** An element: its tag, its text content and its ordered child elements. */
  datatype Element = Element(tag: string, text: string, children: seq<Element>)

  /** An element holding text only, such as `<name>_content</name>`. */
  function Leaf(tag: string, text: string): Element {
    Element(tag, text, [])
  }

  const AddField := "add-field"
  const AddDynamicField := "add-dynamic-field"
  const DeleteField := "delete-field"
  const DeleteDynamicField := "delete-dynamic-field"
  const DeleteCopyField := "delete-copy-field"
  const AddFieldType := "add-field-type"
  const ReplaceFieldType := "replace-field-type"

  predicate IsDeleteCommand(e: Element) {
    e.tag == DeleteCopyField || e.tag == DeleteDynamicField || e.tag == DeleteField
  }

  predicate IsFieldAddCommand(e: Element) {
    e.tag == AddField || e.tag == AddDynamicField
  }

  /** The delete and add command names are disjoint. */
  lemma DeleteIsNotAdd(e: Element)
    ensures IsDeleteCommand(e) ==> !IsFieldAddCommand(e)
  {
    if IsDeleteCommand(e) {
      assert e.tag[0] == 'd';
    }
  }

  /** For each tag among `children`, the text of the first child carrying
      it: what `XElement.Element(tag).Value` reads. */
  function ChildTexts(children: seq<Element>): map<string, string> {
    if |children| == 0 then map[]
    else ChildTexts(children[1..])[children[0].tag := children[0].text]
  }

  /** A tag reads something exactly when some child carries it. */
  lemma {:induction false} ChildTextsKeys(children: seq<Element>, tag: string)
    ensures tag in ChildTexts(children) <==> exists x :: x in children && x.tag == tag
  {
    if |children| > 0 {
      assert children == [children[0]] + children[1..];
      ChildTextsKeys(children[1..], tag);
    }
  }

  /** The text stored under `tag`, or "" when there is none. */
  function TextOf(m: map<string, string>, tag: string): string {
    if tag in m then m[tag] else ""
  }

  /** `x.Element("name")?.Value`: the text of the element's `name` child. */
  function NameOf(e: Element): Option<string> {
    var m := ChildTexts(e.children);
    if "name" in m then Some(m["name"]) else None
  }

  /** Earlier children win: the texts of `a + b` are those of `b` overridden
      by those of `a`. */
  lemma {:induction false} ChildTextsAppend(a: seq<Element>, b: seq<Element>)
    ensures ChildTexts(a + b) == ChildTexts(b) + ChildTexts(a)
  {
    if |a| == 0 {
      assert a + b == b;
    } else {
      assert (a + b)[1..] == a[1..] + b;
      ChildTextsAppend(a[1..], b);
      var x, y := ChildTexts(b), ChildTexts(a[1..]);
      assert (x + y)[a[0].tag := a[0].text] == x + y[a[0].tag := a[0].text];
    }
  }
}
