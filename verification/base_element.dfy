/** The `BaseElement` wrapper: a chainable facade over one DOM element.

    The DOM element is modelled as an abstract record holding only what the
    wrapper touches: its tag, class list, attributes, inline styles, the
    identities of its child elements and its content string. The wrapper is
    `Live(element)` until `remove()` turns it into `Released`, after which
    every method does nothing and returns `undefined` (here `None`). */
module BaseElement {
  import opened Wrappers
  import Utils

  /** The identity of a DOM node; node allocation is foreign, so identities are parameters. */
  type NodeId = nat

  datatype Element = Element(
    id: NodeId,
    tag: string,
    classes: set<string>,
    attributes: map<string, string>,
    styles: map<string, string>,
    children: seq<NodeId>,
    content: string)

  datatype Wrapper = Live(element: Element) | Released

  /** What one method call leaves behind: the wrapper's new state and the
      value the call returns (`this` for chaining, or `undefined`). */
  datatype Step = Step(state: Wrapper, returned: Option<Wrapper>)

  /** JavaScript truthiness of an optional string argument: absent and `''` are falsy. */
  predicate Truthy(s: Option<string>) {
    s.Some? && s.value != ""
  }

  /* ---------- Sequences of child identities ---------- */

  /** `cs` with every occurrence of `x` removed, order otherwise kept. */
  function Without(cs: seq<NodeId>, x: NodeId): (r: seq<NodeId>)
    ensures x !in r
    ensures forall y :: y in r <==> y in cs && y != x
    ensures x !in cs ==> r == cs
    ensures |r| <= |cs|
  {
    if |cs| == 0 then []
    else (if cs[0] == x then [] else [cs[0]]) + Without(cs[1..], x)
  }

  lemma {:induction false} WithoutConcat(a: seq<NodeId>, b: seq<NodeId>, x: NodeId)
    ensures Without(a + b, x) == Without(a, x) + Without(b, x)
    decreases |a|
  {
    if |a| > 0 {
      assert (a + b)[1..] == a[1..] + b;
      WithoutConcat(a[1..], b, x);
    } else {
      assert a + b == b;
    }
  }

  lemma {:induction false} WithoutCount(cs: seq<NodeId>, x: NodeId)
    requires NoDuplicates(cs) && x in cs
    ensures |Without(cs, x)| + 1 == |cs|
    ensures NoDuplicates(Without(cs, x))
    decreases |cs|
  {
    if cs[0] == x {
      assert x !in cs[1..] by {
        forall j | 0 <= j < |cs[1..]| ensures cs[1..][j] != x {
          assert cs[j + 1] != cs[0];
        }
      }
    } else {
      NoDuplicatesTail(cs);
      WithoutCount(cs[1..], x);
      assert cs[0] !in Without(cs[1..], x) by {
        forall j | 0 <= j < |cs[1..]| ensures cs[1..][j] != cs[0] {
          assert cs[j + 1] != cs[0];
        }
      }
    }
    WithoutNoDuplicates(cs, x);
  }

  lemma {:induction false} WithoutNoDuplicates(cs: seq<NodeId>, x: NodeId)
    requires NoDuplicates(cs)
    ensures NoDuplicates(Without(cs, x))
    decreases |cs|
  {
    if |cs| > 0 {
      NoDuplicatesTail(cs);
      WithoutNoDuplicates(cs[1..], x);
      if cs[0] != x {
        assert cs[0] !in cs[1..] by {
          forall j | 0 <= j < |cs[1..]| ensures cs[1..][j] != cs[0] {
            assert cs[j + 1] != cs[0];
          }
        }
        ConsNoDuplicates(cs[0], Without(cs[1..], x));
      }
    }
  }

  predicate NoDuplicates(cs: seq<NodeId>) {
    forall i, j :: 0 <= i < j < |cs| ==> cs[i] != cs[j]
  }

  lemma NoDuplicatesTail(cs: seq<NodeId>)
    requires |cs| > 0 && NoDuplicates(cs)
    ensures NoDuplicates(cs[1..])
  {
  }

  lemma ConsNoDuplicates(x: NodeId, cs: seq<NodeId>)
    requires NoDuplicates(cs) && x !in cs
    ensures NoDuplicates([x] + cs)
  {
  }

  lemma SnocNoDuplicates(cs: seq<NodeId>, x: NodeId)
    requires NoDuplicates(cs) && x !in cs
    ensures NoDuplicates(cs + [x])
  {
  }

  lemma MovedToEnd(cs: seq<NodeId>, x: NodeId)
    ensures NoDuplicates(cs) ==> NoDuplicates(Without(cs, x) + [x])
    ensures NoDuplicates(cs) && x in cs ==> |Without(cs, x) + [x]| == |cs|
  {
    if NoDuplicates(cs) {
      WithoutNoDuplicates(cs, x);
      SnocNoDuplicates(Without(cs, x), x);
      if x in cs { WithoutCount(cs, x); }
    }
  }

  lemma MovedToFront(cs: seq<NodeId>, x: NodeId)
    ensures NoDuplicates(cs) ==> NoDuplicates([x] + Without(cs, x))
    ensures NoDuplicates(cs) && x in cs ==> |[x] + Without(cs, x)| == |cs|
  {
    if NoDuplicates(cs) {
      WithoutNoDuplicates(cs, x);
      ConsNoDuplicates(x, Without(cs, x));
      if x in cs { WithoutCount(cs, x); }
    }
  }

  /* ---------- What the element reports back (the DOM queries the tests use) ---------- */

  /** `classList.contains(name)`. */
  predicate HasClass(e: Element, name: string) {
    name in e.classes
  }

  /** ASCII lower-casing, as the DOM applies it to attribute names on an HTML
      element and to the position token of `insertAdjacentElement`. */
  function Lowered(s: string): (r: string)
    ensures |r| == |s|
    ensures forall i :: 0 <= i < |s| ==> r[i] == Utils.ToLower(s[i])
  {
    if |s| == 0 then "" else [Utils.ToLower(s[0])] + Lowered(s[1..])
  }

  lemma LoweredKeepsLowercase(s: string)
    requires forall i :: 0 <= i < |s| ==> !('A' <= s[i] <= 'Z')
    ensures Lowered(s) == s
  {
  }

  /** `getAttribute(name)`: `null` (here `None`) when the attribute is absent.
      Attributes are stored under their lower-cased names, and the name
      asked for is lower-cased too. */
  function GetAttribute(e: Element, name: string): Option<string> {
    var key := Lowered(name);
    if key in e.attributes then Some(e.attributes[key]) else None
  }

  /** Reading `style[name]`: the empty string when the property is not set. */
  function StyleValue(e: Element, name: string): string {
    if name in e.styles then e.styles[name] else ""
  }

  /** What every element the model produces satisfies: a node is a child at
      most once, and an inline style is never stored with the empty value
      (assigning `''` removes the property). */
  predicate Valid(e: Element) {
    && NoDuplicates(e.children)
    && forall name :: name in e.styles ==> e.styles[name] != ""
  }

  /* ---------- Element-level effects of the native calls ---------- */

  /** `classList.add(...names)`. */
  function ClassListAdd(e: Element, names: seq<string>): (r: Element)
    ensures forall c :: HasClass(r, c) <==> HasClass(e, c) || c in names
    ensures r == e.(classes := r.classes)
  {
    e.(classes := e.classes + set i | 0 <= i < |names| :: names[i])
  }

  /** `classList.remove(...names)`; removing an absent class does nothing. */
  function ClassListRemove(e: Element, names: seq<string>): (r: Element)
    ensures forall c :: HasClass(r, c) <==> HasClass(e, c) && c !in names
    ensures r == e.(classes := r.classes)
  {
    e.(classes := e.classes - set i | 0 <= i < |names| :: names[i])
  }

  /** `classList.toggle(name)`. */
  function ClassListToggle(e: Element, name: string): (r: Element)
    ensures HasClass(r, name) <==> !HasClass(e, name)
    ensures forall c :: c != name ==> (HasClass(r, c) <==> HasClass(e, c))
    ensures r == e.(classes := r.classes)
  {
    if name in e.classes then e.(classes := e.classes - {name})
    else e.(classes := e.classes + {name})
  }

  /** `setAttribute(name, value)`: sets or overwrites one attribute. The name
      is lower-cased first, so `ID` and `id` name the same attribute. */
  function SetAttribute(e: Element, name: string, value: string): (r: Element)
    ensures forall k :: Lowered(k) == Lowered(name) ==> GetAttribute(r, k) == Some(value)
    ensures forall k :: Lowered(k) != Lowered(name) ==> GetAttribute(r, k) == GetAttribute(e, k)
    ensures r == e.(attributes := r.attributes)
  {
    e.(attributes := e.attributes[Lowered(name) := value])
  }

  /** The (lower-cased) attribute names a list of entries sets. */
  function EntryKeys(entries: seq<(string, string)>): set<string> {
    set i | 0 <= i < |entries| :: Lowered(entries[i].0)
  }

  /** Entry `i` is the last one naming its attribute, so its value is the one that stays. */
  predicate LastForKey(entries: seq<(string, string)>, i: int)
    requires 0 <= i < |entries|
  {
    forall j :: i < j < |entries| ==> Lowered(entries[j].0) != Lowered(entries[i].0)
  }

  /** `Object.entries(attributes).forEach(([n, v]) => setAttribute(n, v))`:
      the entries are applied in order, so the last value for a name wins. */
  function SetAttributeEntries(e: Element, entries: seq<(string, string)>): (r: Element)
    ensures forall k :: k in r.attributes <==> k in e.attributes || k in EntryKeys(entries)
    ensures forall i :: 0 <= i < |entries| && LastForKey(entries, i) ==> GetAttribute(r, entries[i].0) == Some(entries[i].1)
    ensures forall k :: Lowered(k) !in EntryKeys(entries) ==> GetAttribute(r, k) == GetAttribute(e, k)
    ensures r == e.(attributes := r.attributes)
    decreases |entries|
  {
    if |entries| == 0 then e
    else
      EntryKeysCons(entries);
      LastForKeyTail(entries);
      SetAttributeEntries(SetAttribute(e, entries[0].0, entries[0].1), entries[1..])
  }

  lemma EntryKeysCons(entries: seq<(string, string)>)
    requires |entries| > 0
    ensures EntryKeys(entries) == {Lowered(entries[0].0)} + EntryKeys(entries[1..])
  {
  }

  lemma LastForKeyTail(entries: seq<(string, string)>)
    requires |entries| > 0
    ensures forall i :: 1 <= i < |entries| && LastForKey(entries, i) ==> LastForKey(entries[1..], i - 1)
    ensures LastForKey(entries, 0) ==> Lowered(entries[0].0) !in EntryKeys(entries[1..])
  {
  }

  /** `removeAttribute(name)`: only the attribute with the lower-cased name
      goes; a missing attribute is a no-op. */
  function RemoveAttribute(e: Element, name: string): (r: Element)
    ensures forall k :: Lowered(k) == Lowered(name) ==> GetAttribute(r, k) == None
    ensures forall k :: Lowered(k) != Lowered(name) ==> GetAttribute(r, k) == GetAttribute(e, k)
    ensures r == e.(attributes := r.attributes)
  {
    e.(attributes := e.attributes - {Lowered(name)})
  }

  /** `style[kebabToCamelCase(property)] = value`. Assigning the empty string
      removes the property, as the CSS object model does. */
  function StyleAssign(e: Element, property: string, value: string): (r: Element)
    ensures StyleValue(r, Utils.KebabToCamelCase(property)) == value
    ensures forall k :: k != Utils.KebabToCamelCase(property) ==> StyleValue(r, k) == StyleValue(e, k)
    ensures Valid(e) ==> Valid(r)
    ensures r == e.(styles := r.styles)
  {
    var key := Utils.KebabToCamelCase(property);
    if value == "" then e.(styles := e.styles - {key})
    else e.(styles := e.styles[key := value])
  }

  /** A custom property name (`--name`), which CSS compares case-sensitively. */
  predicate IsCustomProperty(name: string) {
    |name| >= 2 && name[0] == '-' && name[1] == '-'
  }

  /** `style.removeProperty(property)`, with the name passed through
      unconverted; the CSS object model lower-cases it unless it is a
      custom property. */
  function StyleRemoveProperty(e: Element, property: string): (r: Element)
    ensures IsCustomProperty(property) ==> StyleValue(r, property) == ""
    ensures !IsCustomProperty(property) ==> StyleValue(r, Lowered(property)) == ""
    ensures forall k :: k != (if IsCustomProperty(property) then property else Lowered(property)) ==> StyleValue(r, k) == StyleValue(e, k)
    ensures Valid(e) ==> Valid(r)
    ensures (if IsCustomProperty(property) then property else Lowered(property)) !in e.styles ==> r == e
    ensures r == e.(styles := r.styles)
  {
    var key := if IsCustomProperty(property) then property else Lowered(property);
    e.(styles := e.styles - {key})
  }

  /** `innerHTML = markup`: the old child nodes are replaced by the parsed
      markup, whose nodes this model does not track. */
  function SetInnerHtml(e: Element, markup: string): (r: Element)
    ensures r.content == markup && r.children == []
    ensures r == e.(content := markup, children := [])
  {
    e.(content := markup, children := [])
  }

  /** `innerHTML += markup`: the content grows by `markup`, and since the whole
      content is parsed again every previous child node is replaced. */
  function AppendInnerHtml(e: Element, markup: string): (r: Element)
    ensures r.content == e.content + markup && r.children == []
    ensures r == e.(content := r.content, children := [])
  {
    e.(content := e.content + markup, children := [])
  }

  /** `textContent = content`, with `content` defaulting to `''`. */
  function SetTextContent(e: Element, content: Option<string>): (r: Element)
    ensures content.None? ==> r.content == ""
    ensures content.Some? ==> r.content == content.value
    ensures r.children == [] && r == e.(content := r.content, children := [])
  {
    e.(content := content.GetOr(""), children := [])
  }

  /** `append(node)`: `node` becomes the last child; if it already was a
      child it is moved, the other children keep their order. */
  function AppendChild(e: Element, node: NodeId): (r: Element)
    ensures |r.children| > 0 && r.children[|r.children| - 1] == node
    ensures r.children[..|r.children| - 1] == Without(e.children, node)
    ensures node !in e.children ==> r.children == e.children + [node]
    ensures NoDuplicates(e.children) ==> NoDuplicates(r.children) && (node in e.children ==> |r.children| == |e.children|)
    ensures r == e.(children := r.children)
  {
    MovedToEnd(e.children, node);
    e.(children := Without(e.children, node) + [node])
  }

  /** `prepend(node)`: `node` becomes the first child, moved if it already was one. */
  function PrependChild(e: Element, node: NodeId): (r: Element)
    ensures |r.children| > 0 && r.children[0] == node
    ensures r.children[1..] == Without(e.children, node)
    ensures node !in e.children ==> r.children == [node] + e.children
    ensures NoDuplicates(e.children) ==> NoDuplicates(r.children) && (node in e.children ==> |r.children| == |e.children|)
    ensures r == e.(children := r.children)
  {
    MovedToFront(e.children, node);
    e.(children := [node] + Without(e.children, node))
  }

  /* ---------- The wrapper ---------- */

  /** `new BaseElement(tag)`: a fresh element of the given tag, or a `div`
      when the tag is absent or empty. `id` is the identity the DOM gives the new node. */
  function Construct(tag: Option<string>, id: NodeId): (w: Wrapper)
    ensures w.Live? && w.element.id == id && Valid(w.element)
    ensures Truthy(tag) ==> w.element.tag == tag.value
    ensures !Truthy(tag) ==> w.element.tag == "div"
    ensures w.element.classes == {} && w.element.attributes == map[] && w.element.styles == map[]
    ensures w.element.children == [] && w.element.content == ""
  {
    Live(Element(id, if Truthy(tag) then tag.value else "div", {}, map[], map[], [], ""))
  }

  /** The methods of the wrapper that act on its own element, one constructor
      per method and named after it; the element-level functions above are
      named after the native call each method makes. */
  datatype Call =
    | AddClass(names: seq<string>)
    | RemoveClass(names: seq<string>)
    | ToggleClass(name: string)
    | AddAttribute(name: string, value: string)
    | SetAttributes(entries: seq<(string, string)>)
    | DeleteAttribute(name: string)
    | AddStyle(property: string, value: string)
    | RemoveStyle(property: string)
    | InnerHtml(markup: string)
    | AddInnerHtml(markup: string)
    | Text(content: Option<string>)
    | AppendElement(node: NodeId)
    | PrependElement(node: NodeId)
    | Remove

  /** The native effect of a call other than `remove()` on a live element. */
  function Effect(e: Element, call: Call): (r: Element)
    requires !call.Remove?
    ensures r.id == e.id && r.tag == e.tag
    ensures Valid(e) ==> Valid(r)
  {
    match call
    case AddClass(names) => ClassListAdd(e, names)
    case RemoveClass(names) => ClassListRemove(e, names)
    case ToggleClass(name) => ClassListToggle(e, name)
    case AddAttribute(name, value) => SetAttribute(e, name, value)
    case SetAttributes(entries) => SetAttributeEntries(e, entries)
    case DeleteAttribute(name) => RemoveAttribute(e, name)
    case AddStyle(property, value) => StyleAssign(e, property, value)
    case RemoveStyle(property) => StyleRemoveProperty(e, property)
    case InnerHtml(markup) => SetInnerHtml(e, markup)
    case AddInnerHtml(markup) => AppendInnerHtml(e, markup)
    case Text(content) => SetTextContent(e, content)
    case AppendElement(node) => AppendChild(e, node)
    case PrependElement(node) => PrependChild(e, node)
  }

  /** One method call. Every method first checks whether the wrapper was
      released and, if so, returns `undefined` without doing anything.
      `remove()` releases the element and returns `undefined`; every other
      method applies its effect and returns the wrapper itself. */
  function Apply(w: Wrapper, call: Call): (r: Step)
    ensures w.Released? ==> r.state == Released && r.returned == None
    ensures call.Remove? ==> r.state == Released && r.returned == None
    ensures w.Live? && !call.Remove? ==> r.state.Live? && r.returned == Some(r.state)
    ensures w.Live? && !call.Remove? ==> r.state.element.id == w.element.id && r.state.element.tag == w.element.tag
    ensures w.Live? && !call.Remove? && Valid(w.element) ==> Valid(r.state.element)
  {
    match w
    case Released => Step(Released, None)
    case Live(e) =>
      if call.Remove? then Step(Released, None)
      else var e' := Effect(e, call); Step(Live(e'), Some(Live(e')))
  }

  /** The `DOMElement` getter: the element while live, `undefined` once released. */
  function DomElement(w: Wrapper): (r: Option<Element>)
    ensures r.Some? <==> w.Live?
    ensures w.Live? ==> r.value == w.element
  {
    match w
    case Live(e) => Some(e)
    case Released => None
  }

  /** Statements `w.c1(); w.c2(); ...` on the same wrapper, as the tests write them. */
  function Run(w: Wrapper, calls: seq<Call>): Wrapper
    decreases |calls|
  {
    if |calls| == 0 then w else Run(Apply(w, calls[0]).state, calls[1..])
  }

  /** The chained expression `w.c1().c2()...cn()`: each call is made on the
      value the previous one returned. `None` stands for the `TypeError`
      raised by calling a method on `undefined`. */
  function Chain(w: Wrapper, calls: seq<Call>): Option<Step>
    decreases |calls|
  {
    if |calls| == 0 then Some(Step(w, Some(w)))
    else
      var st := Apply(w, calls[0]);
      if |calls| == 1 then Some(st)
      else if st.returned.None? then None
      else Chain(st.returned.value, calls[1..])
  }

  /* ---------- appendTo ---------- */

  /** The four adjacent-insertion positions of `insertAdjacentElement`. */
  datatype Position = BeforeBegin | AfterBegin | BeforeEnd | AfterEnd

  /** The position token, matched ASCII case-insensitively; `None` for an
      unknown token, on which the DOM throws a `SyntaxError`. */
  function ParsePosition(token: string): (p: Option<Position>)
    ensures p == Some(BeforeBegin) <==> Lowered(token) == "beforebegin"
    ensures p == Some(AfterBegin) <==> Lowered(token) == "afterbegin"
    ensures p == Some(BeforeEnd) <==> Lowered(token) == "beforeend"
    ensures p == Some(AfterEnd) <==> Lowered(token) == "afterend"
  {
    var t := Lowered(token);
    if t == "beforebegin" then Some(BeforeBegin)
    else if t == "afterbegin" then Some(AfterBegin)
    else if t == "beforeend" then Some(BeforeEnd)
    else if t == "afterend" then Some(AfterEnd)
    else None
  }

  /** The outcome of `appendTo(parent, position)`: the parent's new state and
      the value returned; an insertion beside the parent, which changes the
      parent's own container rather than the parent; or the `SyntaxError`
      thrown for an unknown position token. */
  datatype Placement =
    | Placed(parent: Option<Element>, returned: Option<Wrapper>)
    | PlacedBesideParent(returned: Option<Wrapper>)
    | SyntaxError

  /** `appendTo(parent, position = null)`: with no (or an empty) position the
      element is appended to the parent; with a position it is inserted at
      that position; with no parent nothing happens. A live wrapper returns
      itself in every case. */
  function AppendTo(w: Wrapper, parent: Option<Element>, position: Option<string>): (r: Placement)
    ensures w.Released? ==> r == Placed(parent, None)
    ensures w.Live? && parent.None? ==> r == Placed(None, Some(w))
    ensures w.Live? && !r.SyntaxError? ==> r.returned == Some(w)
    ensures r.SyntaxError? <==> w.Live? && parent.Some? && Truthy(position) && ParsePosition(position.value).None?
    ensures r.PlacedBesideParent? <==> w.Live? && parent.Some? && Truthy(position)
                                        && ParsePosition(position.value) in {Some(BeforeBegin), Some(AfterEnd)}
    ensures w.Live? && parent.Some? && (!Truthy(position) || ParsePosition(position.value) == Some(BeforeEnd)) ==>
              r.Placed? && r.parent == Some(AppendChild(parent.value, w.element.id))
    ensures w.Live? && parent.Some? && Truthy(position) && ParsePosition(position.value) == Some(AfterBegin) ==>
              r.Placed? && r.parent == Some(PrependChild(parent.value, w.element.id))
  {
    match w
    case Released => Placed(parent, None)
    case Live(e) =>
      if !Truthy(position) && parent.Some? then
        Placed(Some(AppendChild(parent.value, e.id)), Some(w))
      else if Truthy(position) && parent.Some? then
        match ParsePosition(position.value)
        case None => SyntaxError
        case Some(AfterBegin) => Placed(Some(PrependChild(parent.value, e.id)), Some(w))
        case Some(BeforeEnd) => Placed(Some(AppendChild(parent.value, e.id)), Some(w))
        case Some(_) => PlacedBesideParent(Some(w))
      else
        Placed(parent, Some(w))
  }
}
