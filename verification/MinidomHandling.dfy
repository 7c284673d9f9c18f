/** Building a document from parser events with one character buffer for all open elements. */
module MinidomHandling {
  import opened Sequences
  import opened Trimming
  import opened Options

  /** What a start tag says. */
  datatype Tag = Tag(qname: string, uri: string, attributes: seq<(string, string)>)

  /** An element of the document. */
  datatype Element = Element(tag: Tag, characterData: string, children: seq<Element>)

  datatype Event = Start(tag: Tag) | Characters(value: string) | End(tag: Tag)

  /** The state of the handler: the open elements, the innermost one last, and how much of the shared
      buffer belongs to each of them. */
  datatype State = State(nodeStack: seq<Element>, bytesForElement: seq<nat>, currentCharacterData: string,
                         root: Option<Element>)

  function Last<T>(s: seq<T>): T
    requires s != []
  {
    s[|s| - 1]
  }

  function Pop<T>(s: seq<T>): seq<T>
    requires s != []
  {
    s[..|s| - 1]
  }

  function Attached(s: State, element: Element): State
  {
    if s.nodeStack == [] then s.(root := Some(element))
    else
      var parent := Last(s.nodeStack);
      s.(nodeStack := Pop(s.nodeStack) + [parent.(children := parent.children + [element])])
  }

  /** One event. A document that is not well formed fails. */
  function Step(preserve: bool, s: State, e: Event): Option<State>
  {
    match e
    case Start(tag) =>
      Some(s.(nodeStack := s.nodeStack + [Element(tag, "", [])], bytesForElement := s.bytesForElement + [0]))
    case Characters(value) =>
      if s.bytesForElement == [] then None
      else Some(s.(currentCharacterData := s.currentCharacterData + value,
                   bytesForElement := Pop(s.bytesForElement) + [Last(s.bytesForElement) + |value|]))
    case End(_) =>
      if s.bytesForElement == [] || s.nodeStack == [] || |s.currentCharacterData| < Last(s.bytesForElement) then None
      else
        var diff := |s.currentCharacterData| - Last(s.bytesForElement);
        var own := s.currentCharacterData[diff..];
        var current := Last(s.nodeStack).(characterData := if preserve then own else Trim(own));
        Some(Attached(State(Pop(s.nodeStack), Pop(s.bytesForElement), s.currentCharacterData[..diff], s.root), current))
  }

  function Run(preserve: bool, s: State, events: seq<Event>): Option<State>
    decreases |events|
  {
    if events == [] then Some(s)
    else match Step(preserve, s, events[0])
      case None => None
      case Some(next) => Run(preserve, next, events[1..])
  }

  class MinidomHandler {
    var currentCharacterData: string
    var bytesForElement: seq<nat>
    var nodeStack: seq<Element>
    var root: Option<Element>
    var preserveCharData: bool

    constructor ()
      ensures Abstract() == State([], [], "", None) && !preserveCharData
    {
      currentCharacterData, bytesForElement, nodeStack, root, preserveCharData := "", [], [], None, false;
    }

    function Abstract(): State
      reads this
    {
      State(nodeStack, bytesForElement, currentCharacterData, root)
    }

    method PreserveCharacterData(preserve: bool)
      modifies `preserveCharData
      ensures preserveCharData == preserve
    {
      preserveCharData := preserve;
    }

    method StartElement(tag: Tag)
      modifies `nodeStack, `bytesForElement
      ensures Some(Abstract()) == Step(preserveCharData, old(Abstract()), Start(tag))
    {
      nodeStack := nodeStack + [Element(tag, "", [])];
      bytesForElement := bytesForElement + [0];
    }

    method HandleCharacters(value: string)
      requires bytesForElement != []
      modifies `currentCharacterData, `bytesForElement
      ensures Some(Abstract()) == Step(preserveCharData, old(Abstract()), Characters(value))
    {
      assert currentCharacterData + "" == currentCharacterData;
      if |value| != 0 {
        currentCharacterData := currentCharacterData + value;
      }
      bytesForElement := Pop(bytesForElement) + [Last(bytesForElement) + |value|];
    }

    /** Takes the character data of the innermost element off the buffer. */
    method AdjustCharacterData() returns (newCharacterData: string)
      requires bytesForElement != [] && Last(bytesForElement) <= |currentCharacterData|
      modifies `currentCharacterData
      ensures var diff := |old(currentCharacterData)| - Last(bytesForElement);
              && currentCharacterData == old(currentCharacterData)[..diff]
              && newCharacterData == if preserveCharData then old(currentCharacterData)[diff..]
                   else Trim(old(currentCharacterData)[diff..])
    {
      var diff := |currentCharacterData| - Last(bytesForElement);
      newCharacterData := currentCharacterData[diff..];
      currentCharacterData := currentCharacterData[..diff];
      if !preserveCharData && newCharacterData != "" {
        newCharacterData := TrimString(newCharacterData);
      }
    }

    method EndElement(tag: Tag)
      requires bytesForElement != [] && nodeStack != [] && Last(bytesForElement) <= |currentCharacterData|
      modifies this
      ensures preserveCharData == old(preserveCharData)
      ensures Some(Abstract()) == Step(preserveCharData, old(Abstract()), End(tag))
    {
      var current := Last(nodeStack);
      nodeStack := Pop(nodeStack);
      var data := AdjustCharacterData();
      current := current.(characterData := data);
      bytesForElement := Pop(bytesForElement);
      if |nodeStack| != 0 {
        var parent := Last(nodeStack);
        nodeStack := Pop(nodeStack) + [parent.(children := parent.children + [current])];
      } else {
        root := Some(current);
      }
    }
  }

  // ----- Documents -----

  /** An element as it stands in a file: its tag and its content. */
  datatype Tree = Tree(tag: Tag, content: Content)

  /** Pieces of text, cut anywhere, and elements. */
  datatype Content = Nothing | Text(chunk: string, rest: Content) | Child(tree: Tree, rest: Content)

  /** The events that a parser reports for an element. */
  function Events(t: Tree): seq<Event>
  {
    [Start(t.tag)] + ContentEvents(t.content) + [End(t.tag)]
  }

  function ContentEvents(c: Content): seq<Event>
  {
    match c
    case Nothing => []
    case Text(chunk, rest) => [Characters(chunk)] + ContentEvents(rest)
    case Child(tree, rest) => Events(tree) + ContentEvents(rest)
  }

  /** All text that stands directly in the element. */
  function OwnText(c: Content): string
  {
    match c
    case Nothing => ""
    case Text(chunk, rest) => chunk + OwnText(rest)
    case Child(_, rest) => OwnText(rest)
  }

  /** The document that an element means. */
  function Dom(preserve: bool, t: Tree): Element
  {
    Element(t.tag, if preserve then OwnText(t.content) else Trim(OwnText(t.content)), ChildrenOf(preserve, t.content))
  }

  function ChildrenOf(preserve: bool, c: Content): seq<Element>
  {
    match c
    case Nothing => []
    case Text(_, rest) => ChildrenOf(preserve, rest)
    case Child(tree, rest) => [Dom(preserve, tree)] + ChildrenOf(preserve, rest)
  }

  lemma {:induction false} RunConcat(preserve: bool, s: State, a: seq<Event>, b: seq<Event>)
    ensures Run(preserve, s, a + b)
      == match Run(preserve, s, a) case None => None case Some(next) => Run(preserve, next, b)
    decreases |a|
  {
    if a == [] {
      assert a + b == b;
    } else {
      assert (a + b)[1..] == a[1..] + b;
      match Step(preserve, s, a[0])
      case None =>
      case Some(next) => RunConcat(preserve, next, a[1..], b);
    }
  }

  /** The innermost open element after its parser has reported some content. */
  function Grown(preserve: bool, s: State, c: Content): State
    requires s.nodeStack != [] && s.bytesForElement != []
  {
    var top := Last(s.nodeStack);
    State(Pop(s.nodeStack) + [top.(children := top.children + ChildrenOf(preserve, c))],
          Pop(s.bytesForElement) + [Last(s.bytesForElement) + |OwnText(c)|],
          s.currentCharacterData + OwnText(c), s.root)
  }

  predicate Open(s: State)
  {
    s.nodeStack != [] && s.bytesForElement != []
  }

  lemma {:induction false} RunOne(preserve: bool, s: State, e: Event)
    ensures Run(preserve, s, [e]) == Step(preserve, s, e)
  {
    assert [e][1..] == [];
  }

  /** Whatever elements are open around it, an element is built as its document says, put where it belongs,
      and leaves the buffer as it found it. */
  lemma {:induction false} ElementRun(preserve: bool, s: State, t: Tree)
    ensures Run(preserve, s, Events(t)) == Some(Attached(s, Dom(preserve, t)))
    decreases t
  {
    var inner := Step(preserve, s, Start(t.tag)).value;
    RunOne(preserve, s, Start(t.tag));
    RunConcat(preserve, s, [Start(t.tag)], ContentEvents(t.content));
    RunConcat(preserve, s, [Start(t.tag)] + ContentEvents(t.content), [End(t.tag)]);
    ContentRun(preserve, inner, t.content);
    var grown := Grown(preserve, inner, t.content);
    RunOne(preserve, grown, End(t.tag));
    ElementCloses(preserve, s, t);
  }

  /** The end tag takes exactly the text of the element off the buffer. */
  lemma ElementCloses(preserve: bool, s: State, t: Tree)
    ensures var inner := Step(preserve, s, Start(t.tag)).value;
            Step(preserve, Grown(preserve, inner, t.content), End(t.tag)) == Some(Attached(s, Dom(preserve, t)))
  {
    var inner := Step(preserve, s, Start(t.tag)).value;
    var grown := Grown(preserve, inner, t.content);
    assert Pop(inner.nodeStack) == s.nodeStack && Pop(inner.bytesForElement) == s.bytesForElement;
    assert Pop(grown.nodeStack) == s.nodeStack && Pop(grown.bytesForElement) == s.bytesForElement;
    var diff := |s.currentCharacterData|;
    assert grown.currentCharacterData[diff..] == OwnText(t.content);
    assert grown.currentCharacterData[..diff] == s.currentCharacterData;
    assert [] + ChildrenOf(preserve, t.content) == ChildrenOf(preserve, t.content);
  }

  lemma {:induction false} ContentRun(preserve: bool, s: State, c: Content)
    requires Open(s)
    ensures Run(preserve, s, ContentEvents(c)) == Some(Grown(preserve, s, c))
    decreases c
  {
    match c
    case Nothing =>
      assert Last(s.nodeStack).children + [] == Last(s.nodeStack).children;
      assert s.currentCharacterData + "" == s.currentCharacterData;
      assert Pop(s.nodeStack) + [Last(s.nodeStack)] == s.nodeStack;
      assert Pop(s.bytesForElement) + [Last(s.bytesForElement)] == s.bytesForElement;
    case Text(chunk, rest) =>
      var next := Step(preserve, s, Characters(chunk)).value;
      RunOne(preserve, s, Characters(chunk));
      RunConcat(preserve, s, [Characters(chunk)], ContentEvents(rest));
      ContentRun(preserve, next, rest);
      TextGrows(preserve, s, chunk, rest);
    case Child(tree, rest) =>
      ElementRun(preserve, s, tree);
      RunConcat(preserve, s, Events(tree), ContentEvents(rest));
      ContentRun(preserve, Attached(s, Dom(preserve, tree)), rest);
      ChildGrows(preserve, s, tree, rest);
  }

  lemma TextGrows(preserve: bool, s: State, chunk: string, rest: Content)
    requires Open(s)
    ensures Grown(preserve, Step(preserve, s, Characters(chunk)).value, rest) == Grown(preserve, s, Text(chunk, rest))
  {
    var next := Step(preserve, s, Characters(chunk)).value;
    assert Pop(next.bytesForElement) == Pop(s.bytesForElement);
    assert s.currentCharacterData + chunk + OwnText(rest) == s.currentCharacterData + (chunk + OwnText(rest));
  }

  lemma ChildGrows(preserve: bool, s: State, tree: Tree, rest: Content)
    requires Open(s)
    ensures Grown(preserve, Attached(s, Dom(preserve, tree)), rest) == Grown(preserve, s, Child(tree, rest))
  {
    var top, next := Last(s.nodeStack), Attached(s, Dom(preserve, tree));
    assert Pop(next.nodeStack) == Pop(s.nodeStack);
    assert top.children + [Dom(preserve, tree)] + ChildrenOf(preserve, rest)
        == top.children + ([Dom(preserve, tree)] + ChildrenOf(preserve, rest));
  }

  // ----- The shared buffer -----

  /** What an event does to separate buffers, one for each open element. */
  function StepTexts(texts: seq<string>, e: Event): Option<seq<string>>
  {
    match e
    case Start(_) => Some(texts + [""])
    case Characters(value) => if texts == [] then None else Some(Pop(texts) + [Last(texts) + value])
    case End(_) => if texts == [] then None else Some(Pop(texts))
  }

  /** The text of every open element so far, the innermost one last. */
  function OpenTexts(events: seq<Event>): Option<seq<string>>
    decreases |events|
  {
    if events == [] then Some([])
    else match OpenTexts(Pop(events))
      case None => None
      case Some(texts) => StepTexts(texts, Last(events))
  }

  predicate Shares(s: State, texts: seq<string>)
  {
    && s.currentCharacterData == Flatten(texts)
    && |s.bytesForElement| == |s.nodeStack| == |texts|
    && forall i :: 0 <= i < |texts| ==> s.bytesForElement[i] == |texts[i]|
  }

  /** After any events, well nested or not yet closed, the buffer is the texts of the open elements one behind
      the other, with the recorded lengths; and the handler fails only where the events are not well nested. */
  lemma {:induction false} BufferIsShared(preserve: bool, root: Option<Element>, events: seq<Event>)
    ensures Run(preserve, State([], [], "", root), events).Some? <==> OpenTexts(events).Some?
    ensures OpenTexts(events).Some? ==>
      Shares(Run(preserve, State([], [], "", root), events).value, OpenTexts(events).value)
  {
    if events != [] {
      var before, e := Pop(events), Last(events);
      assert events == before + [e];
      BufferIsShared(preserve, root, before);
      var start := State([], [], "", root);
      RunConcat(preserve, start, before, [e]);
      if OpenTexts(before).Some? {
        var s := Run(preserve, start, before).value;
        RunOne(preserve, s, e);
        StepShares(preserve, s, OpenTexts(before).value, e);
      }
    }
  }

  lemma StepShares(preserve: bool, s: State, texts: seq<string>, e: Event)
    requires Shares(s, texts)
    ensures Step(preserve, s, e).Some? <==> StepTexts(texts, e).Some?
    ensures StepTexts(texts, e).Some? ==> Shares(Step(preserve, s, e).value, StepTexts(texts, e).value)
  {
    match e
    case Start(_) =>
      assert Pop(texts + [""]) == texts;
    case Characters(value) =>
      if texts != [] {
        assert Pop(Pop(texts) + [Last(texts) + value]) == Pop(texts);
        assert Flatten(Pop(texts)) + Last(texts) + value == Flatten(Pop(texts)) + (Last(texts) + value);
      }
    case End(_) =>
      if texts != [] {
        var diff := |s.currentCharacterData| - Last(s.bytesForElement);
        assert s.currentCharacterData[..diff] == Flatten(Pop(texts));
      }
  }

  // ----- From documents back to elements -----

  /** An element as a file that means it: its text, and then its children. */
  function TreeOf(e: Element): Tree
    decreases e, 1, 0
  {
    Tree(e.tag, Text(e.characterData, ChildContent(e, 0)))
  }

  function ChildContent(e: Element, i: nat): Content
    requires i <= |e.children|
    decreases e, 0, |e.children| - i
  {
    if i == |e.children| then Nothing else Child(TreeOf(e.children[i]), ChildContent(e, i + 1))
  }

  /** No text begins or ends with white space. */
  predicate AllTrimmed(e: Element)
  {
    Trimmed(e.characterData) && forall i :: 0 <= i < |e.children| ==> AllTrimmed(e.children[i])
  }

  lemma {:induction false} ChildText(e: Element, i: nat)
    requires i <= |e.children|
    ensures OwnText(ChildContent(e, i)) == ""
    decreases |e.children| - i
  {
    if i < |e.children| {
      ChildText(e, i + 1);
    }
  }

  lemma TrimSame(s: string)
    ensures Trim(s) == s <==> Trimmed(s)
  {
    if Trimmed(s) {
      TrimIsUnique(s, "", s, "");
    }
  }

  /** A document comes back as it was exactly when its character data is preserved, or has no white space to trim. */
  lemma {:induction false} DomOfTree(preserve: bool, e: Element)
    ensures Dom(preserve, TreeOf(e)) == e <==> preserve || AllTrimmed(e)
    decreases e, 1, 0
  {
    ChildText(e, 0);
    assert OwnText(TreeOf(e).content) == e.characterData + "" == e.characterData;
    TrimSame(e.characterData);
    ChildrenOfTree(preserve, e, 0);
    assert e.children[0..] == e.children;
  }

  lemma {:induction false} ChildrenOfTree(preserve: bool, e: Element, i: nat)
    requires i <= |e.children|
    ensures ChildrenOf(preserve, ChildContent(e, i)) == e.children[i..]
            <==> preserve || forall k :: i <= k < |e.children| ==> AllTrimmed(e.children[k])
    decreases e, 0, |e.children| - i
  {
    if i < |e.children| {
      DomOfTree(preserve, e.children[i]);
      ChildrenOfTree(preserve, e, i + 1);
      assert e.children[i..] == [e.children[i]] + e.children[i + 1..];
    }
  }

  /** Of the text of an element, cut anywhere and between children, exactly the tabs, line feeds, vertical tabs, form
      feeds, carriage returns and spaces at its ends are dropped; nothing is left of a text of only those. */
  lemma TextOfElement(t: Tree, before: string, word: string, after: string)
    requires OwnText(t.content) == before + word + after
    requires forall i :: 0 <= i < |before| ==> 9 <= before[i] as int <= 13 || before[i] as int == 32
    requires forall i :: 0 <= i < |after| ==> 9 <= after[i] as int <= 13 || after[i] as int == 32
    requires word != "" ==> !(9 <= word[0] as int <= 13 || word[0] as int == 32)
    requires word != "" ==> !(9 <= word[|word| - 1] as int <= 13 || word[|word| - 1] as int == 32)
    ensures Dom(false, t).characterData == word && Dom(true, t).characterData == before + word + after
  {
    hide *;
    SpaceCodes(before);
    SpaceCodes(word);
    SpaceCodes(after);
    TrimIsUnique(before + word + after, before, word, after);
    DomText(t);
  }

  lemma DomText(t: Tree)
    ensures Dom(false, t).characterData == Trim(OwnText(t.content)) && Dom(true, t).characterData == OwnText(t.content)
  {
  }

  /** Feeding all events of a document to a handler, whatever it has built before. */
  method Parse(handler: MinidomHandler, document: Tree) returns (root: Element)
    requires handler.nodeStack == [] && handler.bytesForElement == [] && handler.currentCharacterData == ""
    modifies handler
    ensures root == Dom(handler.preserveCharData, document) && handler.root == Some(root)
    ensures handler.nodeStack == [] && handler.bytesForElement == [] && handler.currentCharacterData == ""
    ensures handler.preserveCharData == old(handler.preserveCharData)
  {
    var events := Events(document);
    ghost var preserve := handler.preserveCharData;
    ElementRun(preserve, handler.Abstract(), document);
    ghost var end := Run(preserve, handler.Abstract(), events);
    while events != []
      invariant handler.preserveCharData == preserve
      invariant end.Some? && Run(preserve, handler.Abstract(), events) == end
      decreases |events|
    {
      match events[0] {
        case Start(tag) => handler.StartElement(tag);
        case Characters(value) => handler.HandleCharacters(value);
        case End(tag) => handler.EndElement(tag);
      }
      events := events[1..];
    }
    root := handler.root.value;
  }
}
