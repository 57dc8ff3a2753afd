/** A parsed markup document, as the HTML parser's tree listed in document order
    (pre-order), and the tree searches the scan uses: `find_all`, `find_previous`,
    `find_next` and `find`. */
module Soup {
  import opened Wrappers

  /** One element: its tag name, the index of its parent element (None when the parent
      is the document itself), its attributes and its full `get_text()`. */
  datatype Element = Element(tag: string, parent: Option<nat>, attrs: map<string, string>, text: string)

  type Document = seq<Element>

  /** Every parent comes before its children, as in any tree listed in document order. */
  predicate WellFormed(doc: Document) {
    forall j :: 0 <= j < |doc| && doc[j].parent.Some? ==> doc[j].parent.value < j
  }

  /** `j` lies inside the element `root`: following parents upwards from `j` reaches `root`. */
  predicate IsDescendant(doc: Document, j: nat, root: nat)
    requires j < |doc|
    ensures IsDescendant(doc, j, root) ==> root < j
    decreases j
  {
    match doc[j].parent
    case None => false
    case Some(p) => p < j && (p == root || IsDescendant(doc, p, root))
  }

  /** `soup.find_all(tag)`: the indices of all elements named `tag`, in document order. */
  function FindAll(doc: Document, tag: string): (r: seq<nat>)
    ensures forall k :: 0 <= k < |r| ==> r[k] < |doc| && doc[r[k]].tag == tag
    ensures forall k, l :: 0 <= k < l < |r| ==> r[k] < r[l]
    ensures forall j :: 0 <= j < |doc| && doc[j].tag == tag ==> j in r
    decreases |doc|
  {
    if doc == [] then []
    else
      var front := FindAll(doc[..|doc| - 1], tag);
      if doc[|doc| - 1].tag == tag then front + [|doc| - 1] else front
  }

  /** `find_previous(tag)` from the element at `start`: the nearest element named `tag`
      before it in document order (its ancestors included). */
  function FindPrevious(doc: Document, start: nat, tag: string): (r: Option<nat>)
    requires start <= |doc|
    ensures r.Some? ==> r.value < start && doc[r.value].tag == tag
    ensures r.Some? ==> forall k :: r.value < k < start ==> doc[k].tag != tag
    ensures r.None? ==> forall k :: 0 <= k < start ==> doc[k].tag != tag
  {
    if start == 0 then None
    else if doc[start - 1].tag == tag then Some(start - 1)
    else FindPrevious(doc, start - 1, tag)
  }

  /** The first element named `tag` at index `from` or later. */
  function FindFrom(doc: Document, from: nat, tag: string): (r: Option<nat>)
    requires from <= |doc|
    ensures r.Some? ==> from <= r.value < |doc| && doc[r.value].tag == tag
    ensures r.Some? ==> forall k :: from <= k < r.value ==> doc[k].tag != tag
    ensures r.None? ==> forall k :: from <= k < |doc| ==> doc[k].tag != tag
    decreases |doc| - from
  {
    if from == |doc| then None
    else if doc[from].tag == tag then Some(from)
    else FindFrom(doc, from + 1, tag)
  }

  /** `find_next(tag)` from the element at `start`: the nearest element named `tag`
      after it in document order (its own descendants included). */
  function FindNext(doc: Document, start: nat, tag: string): (r: Option<nat>)
    requires start < |doc|
    ensures r.Some? ==> start < r.value < |doc| && doc[r.value].tag == tag
    ensures r.Some? ==> forall k :: start < k < r.value ==> doc[k].tag != tag
    ensures r.None? ==> forall k :: start < k < |doc| ==> doc[k].tag != tag
  {
    FindFrom(doc, start + 1, tag)
  }

  /** The first descendant of `root` named `tag` at index `from` or later. */
  function FindDescendantFrom(doc: Document, root: nat, from: nat, tag: string): (r: Option<nat>)
    requires from <= |doc|
    ensures r.Some? ==> from <= r.value < |doc| && IsDescendant(doc, r.value, root) && doc[r.value].tag == tag
    ensures r.Some? ==> forall k :: from <= k < r.value ==> !(IsDescendant(doc, k, root) && doc[k].tag == tag)
    ensures r.None? ==> forall k :: from <= k < |doc| ==> !(IsDescendant(doc, k, root) && doc[k].tag == tag)
    decreases |doc| - from
  {
    if from == |doc| then None
    else if IsDescendant(doc, from, root) && doc[from].tag == tag then Some(from)
    else FindDescendantFrom(doc, root, from + 1, tag)
  }

  /** `find(tag)` on the element at `root`: its first descendant named `tag`. */
  function Find(doc: Document, root: nat, tag: string): (r: Option<nat>)
    requires root < |doc|
    ensures r.Some? ==> r.value < |doc| && IsDescendant(doc, r.value, root) && doc[r.value].tag == tag
    ensures r.Some? ==> forall k :: 0 <= k < r.value ==> !(IsDescendant(doc, k, root) && doc[k].tag == tag)
    ensures r.None? ==> forall k :: 0 <= k < |doc| ==> !(IsDescendant(doc, k, root) && doc[k].tag == tag)
  {
    FindDescendantFrom(doc, root, root + 1, tag)
  }

  /** `tag.get_text() if tag else ''`: the found element's full text, or empty. */
  function TextOf(doc: Document, found: Option<nat>): string
    requires found.Some? ==> found.value < |doc|
  {
    match found
    case None => ""
    case Some(j) => doc[j].text
  }
}
