# BaseElement and kebabToCamelCase, modelled in Dafny

This project models the two pieces of logic in the WebPack starter's
component layer:

- `kebabToCamelCase` converts a CSS property name such as
  `background-color` into the camelCase name used to assign a style from
  script (`backgroundColor`). It is a global regular-expression replace:
  every non-overlapping match of `-.` (a hyphen followed by one character
  that is not a line terminator) becomes that character, upper-cased.
- `BaseElement` is a chainable wrapper around one DOM element. Every
  method first checks whether the wrapper was released. A released
  wrapper does nothing and returns `undefined`. Otherwise the method
  does its work, usually one native DOM call, and every method except
  `remove()` returns the wrapper itself, so calls can be chained.
  `remove()` releases the element for good and returns `undefined`.

## Files and modules

- `wrappers.dfy`, module `Wrappers`: the `Option` type. `None` stands for
  `undefined` and `null`.
- `utils.dfy`, module `Utils`: the converter, `KebabToCamelCase`. Its
  independent description is a greedy tokenisation of the input into
  `Match(c)` pieces (the text `-c`) and `Plain(c)` pieces. Any greedy
  tokenisation renders to the converter's output. The module also holds
  the converter's properties.
- `base_element.dfy`, module `BaseElement`:
  - the abstract element: tag, class set, attribute map, inline-style
    map, child node identities, content string;
  - `Wrapper = Live(element) | Released`;
  - one element-level function per native call;
  - `Apply`, the release guard plus the `this`-or-`undefined` return,
    shared by all methods;
  - `Construct`, the `DOMElement` getter (`DomElement`) and `AppendTo`.
- `base_element_properties.dfy`, module `BaseElementProperties`:
  - lemmas about the lifecycle: `Released` is absorbing, and a wrapper is
    live exactly until `remove()`;
  - lemmas about chaining: a chain breaks only after `remove()`, and a
    chain leaves the same state as separate statements;
  - lemmas for the behaviour the test suite checks.

Calls into the DOM are modelled as pure transitions: (state, arguments)
→ (new state, returned value). DOM node identities are allocated outside
the modelled code, so they are passed in as parameters (`id`, `node`).

The module structure follows the source. The converter's regular
expression `/-./g` has two edge rules, and the model follows both:

- a hyphen followed by a line terminator (`\n`, `\r`, U+2028, U+2029) is
  not a match, because `.` does not match a line terminator;
- a hyphen at the end of the string is not a match.

The element model follows the DOM of an HTML document: attribute names
are compared after ASCII lower-casing (`ID` and `id` are one attribute),
and `style.removeProperty` lower-cases a property name unless it is a
custom property (`--name`).

## Model

| member | source | states |
|---|---|---|
| Utils.KebabToCamelCase | src/components/Utils.js:3-5 | the converted name is never longer than the input; a first character that is not a hyphen is kept; a non-empty name stays non-empty |
| Utils.ToUpper | src/components/Utils.js:4 | the case mapping applied to the matched character: a lower-case ASCII letter becomes its capital, every other character (a hyphen in particular) is unchanged |
| Utils.Tokenize | src/components/Utils.js:4 | the left-to-right scan for `-.`, seen as a split of the input into matches and plain characters that covers the input exactly; the first piece is plain exactly when no match starts at the head |
| Utils.TokenizeIsGreedy | src/components/Utils.js:4 | the scan is greedy: every match is a hyphen and a non-line-terminator, and a hyphen left as plain text is last or followed by a line terminator |
| Utils.GreedyRenderIsConversion | src/components/Utils.js:4 | every greedy, non-overlapping tokenisation of a string, with each match replaced by its upper-cased character, yields exactly the converter's output (the regex replace's meaning, stated independently of the scan) |
| Utils.ConversionLength | src/components/Utils.js:4 | output length = input length minus the number of non-overlapping `-.` matches |
| Utils.HyphenFreeUnchanged | src/components/Utils.js:4 | a name containing no hyphen, such as `color`, is returned unchanged |
| Utils.FirstHyphenRewrite | src/components/Utils.js:4 | for hyphen-free `x` and a `c` that is not a line terminator, `x + "-" + c + y` becomes `x + upper(c) + convert(y)`; with `c = '-'` this is the collapse of `--` to `-` |
| Utils.HyphenBeforeLineTerminatorKept | src/components/Utils.js:4 | a hyphen followed by a line terminator is not a match: both characters are kept and the scan goes on after them |
| Utils.TrailingHyphenKept | src/components/Utils.js:4 | a string ending in `-` converts to one ending in `-` |
| Utils.HyphenFreeOutputIff | src/components/Utils.js:4 | the output has no hyphen if and only if every hyphen of the input is followed by a character that is neither a hyphen nor a line terminator |
| Utils.NoMatchUnchanged | src/components/Utils.js:4 | a string in which no position starts a `-.` match (a hyphen may still be last or stand before a line terminator) is returned unchanged |
| Utils.MatchShortens | src/components/Utils.js:4 | a string with a `-.` match anywhere converts to a strictly shorter one |
| Utils.FixedPointIff | src/components/Utils.js:4 | the converter returns its input unchanged if and only if the input has no `-.` match |
| Utils.OutputNoMatch | src/components/Utils.js:4 | on an input with no `--`, the output has no `-.` match |
| Utils.IdempotentWithoutDoubleHyphen | src/components/Utils.js:4 | on an input with no `--` (for example `a-\nb`, or one ending in `-`) converting twice equals converting once |
| Utils.ConversionExamples | src/components/Utils.js:4 | `background-color` → `backgroundColor`; `a-b` → `aB`; `a--b` → `a-b`, which converts again to `aB`, so the converter is not idempotent in general; `a-\nb` converts to itself |
| BaseElement.Construct | src/components/BaseElement.js:6-11 | a new live element with the given identity and no classes, attributes, styles, children or content; the tag is `div` when the argument is absent or empty, else the given tag |
| BaseElement.Apply | src/components/BaseElement.js:13-160 | the guard shared by every method: a released wrapper stays released and the call returns `undefined`; `remove()` releases and returns `undefined`; any other call on a live wrapper returns the wrapper itself, keeps the element's identity and tag, and keeps it valid |
| BaseElement.Effect | src/components/BaseElement.js:13-152 | every native effect keeps the element's identity and tag and preserves validity (no child twice, no style stored as the empty string) |
| BaseElement.DomElement | src/components/BaseElement.js:162-167 | the getter yields the element exactly when the wrapper is live |
| BaseElement.ClassListAdd | src/components/BaseElement.js:13-20 | a class is present afterwards iff it was present before or is one of the names; nothing but the class set changes |
| BaseElement.ClassListRemove | src/components/BaseElement.js:22-29 | a class is present afterwards iff it was present before and is not one of the names; removing an absent class changes nothing |
| BaseElement.ClassListToggle | src/components/BaseElement.js:31-38 | the named class's membership flips; every other class and field is unchanged |
| BaseElement.SetAttribute | src/components/BaseElement.js:40-47 | the attribute reads back as the value under any name that lower-cases to the same name (`ID`, `id`, `Id`); every attribute with a different lower-cased name reads as before |
| BaseElement.SetAttributeEntries | src/components/BaseElement.js:49-58 | the stored names afterwards are the old ones plus the lower-cased entry names; for each name the last entry naming it, in any case, wins; attributes not named by any entry are unchanged |
| BaseElement.RemoveAttribute | src/components/BaseElement.js:60-67 | the attribute reads as `null` under every spelling of its name that lower-cases alike; every other attribute is unchanged |
| BaseElement.StyleAssign | src/components/BaseElement.js:69-76 | the style under the camelCase-converted name reads back as the value; every other style property is unchanged |
| BaseElement.StyleRemoveProperty | src/components/BaseElement.js:78-85 | the property under the lower-cased name (the name as given for a `--` custom property) reads as `''`; every other property, a differently cased name included, is unchanged; validity is kept; removing an unset property is a no-op |
| BaseElement.SetInnerHtml | src/components/BaseElement.js:96-103 | the content becomes the markup; the old child nodes are gone |
| BaseElement.AppendInnerHtml | src/components/BaseElement.js:105-112 | the content becomes the old content followed by the markup; the old child nodes are replaced by re-parsed ones |
| BaseElement.SetTextContent | src/components/BaseElement.js:114-121 | the content becomes the given text, or `''` when it is omitted; the old child nodes are gone |
| BaseElement.AppendChild | src/components/BaseElement.js:136-143 | the node becomes the last child; the children before it are the old children without the node; a new node adds exactly one child; no duplicates arise |
| BaseElement.PrependChild | src/components/BaseElement.js:145-152 | the node becomes the first child; the children after it are the old children without the node; a new node adds exactly one child; no duplicates arise |
| BaseElement.ParsePosition | src/components/BaseElement.js:130 | the four adjacent-insertion tokens are recognised ASCII case-insensitively; any other token is unknown |
| BaseElement.AppendTo | src/components/BaseElement.js:123-134 | released: nothing changes and `undefined` is returned; no parent: nothing changes and the wrapper is returned; no or empty position: appended to the parent; `afterbegin`: prepended; `beforeend`: appended; `beforebegin`/`afterend`: placed beside the parent; an unknown token raises `SyntaxError` |
| BaseElementProperties.ReleasedIsAbsorbing | src/components/BaseElement.js:154-160 | no sequence of calls brings a released wrapper back |
| BaseElementProperties.LiveUntilRemoved | src/components/BaseElement.js:154-160 | a live wrapper stays live iff the calls contain no `remove()`; while live, the element keeps its identity and tag |
| BaseElementProperties.RunKeepsValid | src/components/BaseElement.js:13-152 | every element reached from a valid one by any calls is valid |
| BaseElementProperties.ChainBreaksOnlyAfterRemove | src/components/BaseElement.js:154-160 | a chain of calls on a live wrapper raises no `TypeError` iff `remove()` appears only as the last call, if at all |
| BaseElementProperties.ChainOnReleased | src/components/BaseElement.js:14-15 | on a released wrapper a chain of more than one call breaks |
| BaseElementProperties.ChainAgreesWithStatements | src/components/BaseElement.js:17-19 | a chain that completes leaves the same state as the same calls made as separate statements |
| BaseElementProperties.AddThenRemoveClasses | src/components/BaseElement.js:13-29 | after `addClass(names)` every name is present; after a following `removeClass(names)` every name is absent and all other classes are as they were |
| BaseElementProperties.ToggleTwice | src/components/BaseElement.js:31-38 | toggling the same class twice restores the element |
| BaseElementProperties.SetAttributesDistinct | src/components/BaseElement.js:49-58 | with names distinct after lower-casing, every given name reads back as its given value, whatever the order |
| BaseElementProperties.AttributeNamesIgnoreCase | src/components/BaseElement.js:40-67 | `setAttributes({id: 'a', ID: 'b'})` leaves `id` reading `'b'`; `addAttribute('ID', x)` reads back through `Id`; `deleteAttribute('id')` undoes `addAttribute('ID', x)` |
| BaseElementProperties.AddThenDeleteAttribute | src/components/BaseElement.js:40-67 | adding then deleting an attribute reads `null` and equals deleting alone |
| BaseElementProperties.AddThenRemoveStyle | src/components/BaseElement.js:69-85 | for a hyphen-free property, `addStyle` reads back its value and a following `removeStyle` clears the lower-cased name; for a lower-case name adding then removing equals removing alone, reading `''`; for a name with a capital (`Color`) the assigned value survives the removal |
| BaseElementProperties.AddHyphenatedStyle | src/components/BaseElement.js:73 | `addStyle('background-color', v)` stores `v` under `backgroundColor` |
| BaseElementProperties.InnerHtmlThenAdd | src/components/BaseElement.js:96-112 | `innerHtml(x)` then `addInnerHtml(y)` leaves the content `x + y` |
| BaseElementProperties.TextOverridesContent | src/components/BaseElement.js:96-152 | `text(t)` leaves the same element whether or not `innerHtml(x)` or `appendElement(n)` came before; `text()` then `addInnerHtml(y)` leaves exactly `y` |
| BaseElementProperties.AppendThenPrepend | src/components/BaseElement.js:136-152 | `appendElement(s)` then `prependElement(p)`, with neither already a child, gives `[p] + old + [s]` |
| BaseElementProperties.MoveKeepsOthersInOrder | src/components/BaseElement.js:136-152 | appending or prepending changes only the moved node's place: without it, the children are unchanged |
| BaseElementProperties.AppendToParent | src/components/BaseElement.js:123-134 | no position, or an empty one: the element becomes the parent's last child; `afterbegin`: its first child, with exactly one more child; no parent: nothing changes and the wrapper is returned |
| BaseElementProperties.ConstructorScenario | src/components/BaseElement.test.js:15-22 | a new wrapper's element is a `div` by default (also for `''`) and a `span` when asked |
| BaseElementProperties.ClassScenario | src/components/BaseElement.test.js:33-48 | a class added on a fresh wrapper is present; added then removed, it is absent |
| BaseElementProperties.StyleScenario | src/components/BaseElement.test.js:82-97 | `addStyle('color', 'red')` reads `red`; `removeStyle('color')` on a fresh element reads `''` |
| BaseElementProperties.RemoveScenario | src/components/BaseElement.js:154-167 | after `remove()` the getter yields nothing and a further call returns `undefined` |

## Left out

- `event` (BaseElement.js:87-94) is left out. Listener registration and
  dispatch belong to the platform's event loop.
- `src/index.js` is left out. It only builds one element and attaches it
  to `document.body`.
- Utils.ToUpper: upper-cases ASCII letters only. JavaScript's
  `toUpperCase` follows full Unicode case mapping, which can lengthen a
  string (`ß` becomes `SS`). `Utils.ConversionLength` holds only under
  the ASCII mapping.
- Utils.KebabToCamelCase: works on Unicode scalar values, while
  JavaScript strings are UTF-16 code units. For a hyphen before an astral
  character, JavaScript matches the high surrogate alone. That surrogate
  is left unchanged, so the visible result is the same as the model's.
- BaseElement.StyleRemoveProperty: the style map is keyed by the name the
  native style API ends up using. `addStyle` assigns under the camelCase
  name. `removeStyle` passes the name as given, and `removeProperty`
  lower-cases it unless it starts with `--`. The DOM treats
  `backgroundColor` and `background-color` as one property; the model
  does not. So add-then-remove is stated only for hyphen-free names.
- BaseElement.StyleAssign: the list of CSS properties is not modelled,
  so every name is treated as one. In the DOM, `style[name] = v` with a
  name that is not a CSS property (`foo`, `--x`) sets a plain JavaScript
  property, which `removeProperty` does not clear. The model clears a
  lower-case one.
- BaseElementProperties.AddThenRemoveStyle: its "reads back as `''`"
  half holds in the DOM only for a known CSS property name, for the
  reason given above.
- BaseElement.StyleAssign: the CSS parser is not modelled, so an invalid
  value is stored instead of being ignored.
- BaseElement.SetInnerHtml: markup parsing and serialisation are not
  modelled. The content is an opaque string, shared by `innerHtml`,
  `addInnerHtml` and `text`, and the escaping difference between markup
  and text is ignored.
- BaseElement.AppendInnerHtml: nodes created by parsed markup are not
  tracked as children. The markup of appended child elements does not
  appear in the content.
- BaseElement.Construct: the tag is kept as given. The DOM lower-cases
  HTML tag names and reports `tagName` in upper case (`DIV`).
- Class names and the `class` attribute are tracked separately; in the
  DOM they are one thing. Likewise inline styles and the `style`
  attribute.
- `remove()` also detaches the element from its DOM parent. The parent
  is not part of the wrapper's state, so this is left out.
- BaseElement.AppendTo: for `beforebegin` and `afterend` the element is
  inserted beside the parent, into the parent's own parent, when there is
  one. When there is none, nothing is inserted, and `insertAdjacentElement`
  returns `null`, which `appendTo` ignores. The model tracks neither case,
  so the result (`PlacedBesideParent`) states no parent state. In both
  cases `appendTo` returns the wrapper.
- DOM move semantics across parents are left out. The model moves a node
  only within the same child list. Appending a node taken from another
  parent does not update that other parent.
- DOM exceptions other than the `SyntaxError` for an unknown position
  token are left out. These include:
  - an empty or whitespace-containing class token;
  - an invalid attribute or tag name;
  - appending an element into itself or its descendants.
- Arguments are strings. JavaScript's coercion of other values is left
  out. A default argument is modelled as absent or empty: `text()`
  defaults to `''`, and `setAttributes()` takes an empty entry list.
