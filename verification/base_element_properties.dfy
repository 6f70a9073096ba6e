/** Properties of the `BaseElement` model that relate several calls: the
    release lifecycle, chaining, and the behaviour the test suite checks. */
module BaseElementProperties {
  import opened Wrappers
  import Utils
  import opened BaseElement

  predicate NoRemove(calls: seq<Call>) {
    forall i :: 0 <= i < |calls| ==> !calls[i].Remove?
  }

  /* ---------- Lifecycle ---------- */

  /** `Released` is absorbing: no sequence of calls brings the element back. */
  lemma {:induction false} ReleasedIsAbsorbing(calls: seq<Call>)
    ensures Run(Released, calls) == Released
    decreases |calls|
  {
    if |calls| > 0 {
      ReleasedIsAbsorbing(calls[1..]);
    }
  }

  /** A live wrapper stays live exactly as long as `remove()` is not called,
      and the element it holds keeps its identity and tag. */
  lemma {:induction false} LiveUntilRemoved(w: Wrapper, calls: seq<Call>)
    requires w.Live?
    ensures Run(w, calls).Live? <==> NoRemove(calls)
    ensures Run(w, calls).Live? ==> Run(w, calls).element.id == w.element.id && Run(w, calls).element.tag == w.element.tag
    decreases |calls|
  {
    if |calls| > 0 {
      var st := Apply(w, calls[0]);
      if calls[0].Remove? {
        ReleasedIsAbsorbing(calls[1..]);
        assert !NoRemove(calls);
      } else {
        LiveUntilRemoved(st.state, calls[1..]);
        assert NoRemove(calls) <==> NoRemove(calls[1..]) by {
          if NoRemove(calls[1..]) {
            forall i | 0 <= i < |calls| ensures !calls[i].Remove? {
              if i > 0 { assert calls[1..][i - 1] == calls[i]; }
            }
          }
        }
      }
    }
  }

  /** Every element reached from a valid one stays valid. */
  lemma {:induction false} RunKeepsValid(w: Wrapper, calls: seq<Call>)
    requires w.Live? && Valid(w.element)
    ensures Run(w, calls).Live? ==> Valid(Run(w, calls).element)
    decreases |calls|
  {
    if |calls| > 0 {
      var st := Apply(w, calls[0]);
      if calls[0].Remove? {
        ReleasedIsAbsorbing(calls[1..]);
      } else {
        RunKeepsValid(st.state, calls[1..]);
      }
    }
  }

  /* ---------- Chaining ---------- */

  /** A chain on a live wrapper raises no `TypeError` exactly when `remove()`
      appears, if at all, only as the last call. */
  lemma {:induction false} ChainBreaksOnlyAfterRemove(w: Wrapper, calls: seq<Call>)
    requires w.Live?
    ensures Chain(w, calls).Some? <==> forall i :: 0 <= i < |calls| - 1 ==> !calls[i].Remove?
    decreases |calls|
  {
    if |calls| > 1 {
      var st := Apply(w, calls[0]);
      if !calls[0].Remove? {
        ChainBreaksOnlyAfterRemove(st.returned.value, calls[1..]);
        assert (forall i :: 0 <= i < |calls| - 1 ==> !calls[i].Remove?)
           <==> (forall i :: 0 <= i < |calls[1..]| - 1 ==> !calls[1..][i].Remove?) by {
          if forall i :: 0 <= i < |calls[1..]| - 1 ==> !calls[1..][i].Remove? {
            forall i | 0 <= i < |calls| - 1 ensures !calls[i].Remove? {
              if i > 0 { assert calls[1..][i - 1] == calls[i]; }
            }
          }
        }
      }
    }
  }

  /** On a released wrapper only a single call can be made: its result is `undefined`. */
  lemma ChainOnReleased(calls: seq<Call>)
    ensures Chain(Released, calls).Some? <==> |calls| <= 1
  {
  }

  /** A chain that completes leaves the wrapper in the same state as the
      same calls written as separate statements. */
  lemma {:induction false} ChainAgreesWithStatements(w: Wrapper, calls: seq<Call>)
    requires Chain(w, calls).Some?
    ensures Chain(w, calls).value.state == Run(w, calls)
    decreases |calls|
  {
    if |calls| == 1 {
      assert calls[1..] == [];
    } else if |calls| > 1 {
      var st := Apply(w, calls[0]);
      assert st.returned == Some(st.state);
      ChainAgreesWithStatements(st.state, calls[1..]);
    }
  }

  /* ---------- Classes ---------- */

  /** `addClass(a, b)` makes both members; a following `removeClass(a, b)`
      makes both absent and leaves every other class as it was. */
  lemma AddThenRemoveClasses(e: Element, names: seq<string>)
    ensures forall n :: n in names ==> HasClass(ClassListAdd(e, names), n)
    ensures forall n :: n in names ==> !HasClass(ClassListRemove(ClassListAdd(e, names), names), n)
    ensures forall c :: c !in names ==> (HasClass(ClassListRemove(ClassListAdd(e, names), names), c) <==> HasClass(e, c))
  {
  }

  /** Toggling the same class twice restores the element. */
  lemma ToggleTwice(e: Element, name: string)
    ensures ClassListToggle(ClassListToggle(e, name), name) == e
  {
  }

  /* ---------- Attributes ---------- */

  /** No two entries name the same attribute once names are lower-cased. */
  predicate DistinctKeys(entries: seq<(string, string)>) {
    forall i, j :: 0 <= i < j < |entries| ==> Lowered(entries[i].0) != Lowered(entries[j].0)
  }

  /** With names distinct up to case, every given name ends up with its
      given value, whatever the order. */
  lemma SetAttributesDistinct(e: Element, entries: seq<(string, string)>)
    requires DistinctKeys(entries)
    ensures forall i :: 0 <= i < |entries| ==> GetAttribute(SetAttributeEntries(e, entries), entries[i].0) == Some(entries[i].1)
  {
    forall i | 0 <= i < |entries|
      ensures GetAttribute(SetAttributeEntries(e, entries), entries[i].0) == Some(entries[i].1)
    {
      assert LastForKey(entries, i);
    }
  }

  /** The keys of a JavaScript object are distinct, but two of them can still
      differ only in case: `setAttributes({id: 'a', ID: 'b'})` sets one
      attribute, `id`, to `'b'`, and `getAttribute('Id')` reads it too. */
  lemma AttributeNamesIgnoreCase(e: Element)
    ensures GetAttribute(SetAttributeEntries(e, [("id", "a"), ("ID", "b")]), "id") == Some("b")
    ensures GetAttribute(SetAttribute(e, "ID", "x"), "Id") == Some("x")
    ensures RemoveAttribute(SetAttribute(e, "ID", "x"), "id") == RemoveAttribute(e, "id")
  {
    LoweredKeepsLowercase("id");
    assert Lowered("ID") == "id";
    assert Lowered("Id") == "id";
    var entries := [("id", "a"), ("ID", "b")];
    assert LastForKey(entries, 1);
    assert e.attributes["id" := "x"] - {"id"} == e.attributes - {"id"};
  }

  /** `addAttribute(k, v)` then `deleteAttribute(k)`: `k` reads as `null` and
      every other attribute is what it was before both calls. */
  lemma AddThenDeleteAttribute(e: Element, name: string, value: string)
    ensures GetAttribute(RemoveAttribute(SetAttribute(e, name, value), name), name) == None
    ensures RemoveAttribute(SetAttribute(e, name, value), name) == RemoveAttribute(e, name)
  {
  }

  /* ---------- Styles ---------- */

  /** For a property name without hyphens, `addStyle` stores under the name
      as given and `removeStyle` removes the lower-cased name. On a
      lower-case name the two meet: the value reads back, removing reads
      back as `''`, and the styles end as removing alone would leave them.
      On a name with a capital (`Color`) they miss each other, and the
      assigned value survives the removal. */
  lemma AddThenRemoveStyle(e: Element, property: string, value: string)
    requires Utils.NoHyphen(property)
    ensures StyleValue(StyleAssign(e, property, value), property) == value
    ensures StyleValue(StyleRemoveProperty(StyleAssign(e, property, value), property), Lowered(property)) == ""
    ensures Lowered(property) == property ==>
      && StyleValue(StyleRemoveProperty(StyleAssign(e, property, value), property), property) == ""
      && StyleRemoveProperty(StyleAssign(e, property, value), property) == StyleRemoveProperty(e, property)
    ensures Lowered(property) != property ==>
      StyleValue(StyleRemoveProperty(StyleAssign(e, property, value), property), property) == value
  {
    Utils.HyphenFreeUnchanged(property);
    var key := Lowered(property);
    if key == property {
      assert e.styles[property := value] - {property} == e.styles - {property};
      assert e.styles - {property} - {property} == e.styles - {property};
    }
  }

  /** `addStyle('background-color', v)` stores `v` under `backgroundColor`. */
  lemma AddHyphenatedStyle(e: Element, value: string)
    ensures StyleValue(StyleAssign(e, "background-color", value), "backgroundColor") == value
  {
    Utils.ConversionExamples();
  }

  /* ---------- Content ---------- */

  /** `innerHtml(x)` then `addInnerHtml(y)` leaves the content `x + y`. */
  lemma InnerHtmlThenAdd(e: Element, x: string, y: string)
    ensures SetInnerHtml(e, x).content == x
    ensures AppendInnerHtml(SetInnerHtml(e, x), y).content == x + y
  {
  }

  /** `text(t)` overrides what any earlier content or child call left: after
      it the content is `t` whatever came before; `text()` empties the
      element, so a following `addInnerHtml(y)` leaves exactly `y`. */
  lemma TextOverridesContent(e: Element, x: string, t: string, y: string, node: NodeId)
    ensures SetTextContent(SetInnerHtml(e, x), Some(t)) == SetTextContent(e, Some(t))
    ensures SetTextContent(AppendChild(e, node), Some(t)) == SetTextContent(e, Some(t))
    ensures AppendInnerHtml(SetTextContent(e, None), y).content == y
  {
  }

  /* ---------- Children and appendTo ---------- */

  /** `appendElement(s)` then `prependElement(p)` on an element without
      either child gives the children `[p] + old + [s]`; `[p, s]` from none. */
  lemma AppendThenPrepend(e: Element, s: NodeId, p: NodeId)
    requires s != p && s !in e.children && p !in e.children
    ensures PrependChild(AppendChild(e, s), p).children == [p] + e.children + [s]
  {
    var a := AppendChild(e, s);
    assert a.children == e.children + [s];
    assert p !in a.children;
    assert PrependChild(a, p).children == [p] + a.children;
  }

  /** `appendTo` on a live wrapper and a parent not yet holding the element:
      with no position the element becomes the last child, with
      `'afterbegin'` the first, and either way exactly one child is added;
      with no parent nothing changes. */
  lemma AppendToParent(e: Element, parent: Element)
    requires e.id !in parent.children
    ensures AppendTo(Live(e), Some(parent), None) == Placed(Some(parent.(children := parent.children + [e.id])), Some(Live(e)))
    ensures AppendTo(Live(e), Some(parent), Some("")) == AppendTo(Live(e), Some(parent), None)
    ensures var r := AppendTo(Live(e), Some(parent), Some("afterbegin"));
      r.Placed? && r.parent.Some? && r.parent.value.children == [e.id] + parent.children
      && |r.parent.value.children| == |parent.children| + 1
    ensures AppendTo(Live(e), None, Some("afterbegin")) == Placed(None, Some(Live(e)))
  {
    LoweredKeepsLowercase("afterbegin");
    assert ParsePosition("afterbegin") == Some(AfterBegin);
    var appended := AppendChild(parent, e.id);
    assert appended.children == parent.children + [e.id];
    assert appended == parent.(children := parent.children + [e.id]);
    var prepended := PrependChild(parent, e.id);
    assert prepended.children == [e.id] + parent.children;
  }

  /** Appending or prepending a node moves only that node: with it taken
      out, the children are the old children in their old order. */
  lemma MoveKeepsOthersInOrder(e: Element, node: NodeId)
    ensures Without(AppendChild(e, node).children, node) == Without(e.children, node)
    ensures Without(PrependChild(e, node).children, node) == Without(e.children, node)
  {
    var a := AppendChild(e, node).children;
    assert a == a[..|a| - 1] + [node];
    WithoutConcat(a[..|a| - 1], [node], node);
    assert Without([node], node) == [];
    var p := PrependChild(e, node).children;
    assert p == [node] + p[1..];
    WithoutConcat([node], p[1..], node);
  }

  /* ---------- The test suite, through the wrapper ---------- */

  /** The constructor test: `div` by default, the given tag otherwise. */
  lemma ConstructorScenario(id: NodeId)
    ensures DomElement(Construct(None, id)).value.tag == "div"
    ensures DomElement(Construct(Some(""), id)).value.tag == "div"
    ensures DomElement(Construct(Some("span"), id)).value.tag == "span"
  {
  }

  /** The class tests, as statements on a fresh wrapper. */
  lemma ClassScenario(id: NodeId)
    ensures var w := Construct(None, id);
      && HasClass(Run(w, [AddClass(["test-class"])]).element, "test-class")
      && !HasClass(Run(w, [AddClass(["test-class"]), RemoveClass(["test-class"])]).element, "test-class")
  {
  }

  /** The style tests: `addStyle('color', 'red')` reads back `'red'`, and
      `removeStyle('color')` on a fresh element reads back `''`. */
  lemma StyleScenario(id: NodeId)
    ensures var w := Construct(None, id);
      && StyleValue(Run(w, [AddStyle("color", "red")]).element, "color") == "red"
      && StyleValue(Run(w, [RemoveStyle("color")]).element, "color") == ""
  {
    var w := Construct(None, id);
    Utils.HyphenFreeUnchanged("color");
    assert Run(w, [AddStyle("color", "red")]) == Apply(w, AddStyle("color", "red")).state by {
      assert [AddStyle("color", "red")][1..] == [];
    }
    assert Run(w, [RemoveStyle("color")]) == Apply(w, RemoveStyle("color")).state by {
      assert [RemoveStyle("color")][1..] == [];
    }
  }

  /** After `remove()` the getter yields nothing and a further call returns `undefined`. */
  lemma RemoveScenario(id: NodeId)
    ensures DomElement(Run(Construct(None, id), [Remove])) == None
    ensures Apply(Run(Construct(None, id), [Remove]), AddClass(["x"])).returned == None
  {
  }
}
