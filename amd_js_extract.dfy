/**
  The extraction rules of `AmdJsResource.parse`: the file is parsed to a
  JavaScript syntax tree, a visitor walks it, and each object literal it
  meets first (one not inside another object literal) gives the entries:
  those of a property named `root` (in any letter case) whose value is an
  object literal, or else its own properties. A property's key is an
  identifier or a string literal; its value must be a string literal or a
  chain of binary expressions whose right operands are string literals, the
  fragments joined in source order. The visitor looks at neither the
  operator of a binary expression nor more than one layer of parentheses.

  The JavaScript parser is not part of this model: the tree is the datatype
  `Node`, with every kind of node the visitor does not inspect folded into
  `Other`.
 */
module AmdJsExtract {
  import opened Wrappers
  import opened JavaText
  import opened ResourceStrings
  import opened LanguageBundles
  import opened LanguageBundleBuilders

  /** The syntax tree nodes the visitor tells apart. */
  datatype Node =
    | StringLiteral(value: JString)
    | Name(identifier: JString)
    | Parenthesized(expression: Node)
    | Infix(operator: JString, left: Node, right: Node)
    | ObjectLiteral(elements: seq<Property>)
    | Other(children: seq<Node>)

  /** `ObjectProperty`: a key node and a value node. */
  datatype Property = Property(left: Node, right: Node)

  // ---------------------------------------------------------------------
  // concatStringNodes

  /** `removeParenthes`: one layer of parentheses is taken off. */
  function Unparenthesized(n: Node): (r: Node)
    ensures n.Parenthesized? ==> r == n.expression
    ensures !n.Parenthesized? ==> r == n
  {
    if n.Parenthesized? then n.expression else n
  }

  /**
    The text a node with its outer parentheses removed stands for: a string
    literal's value, or a binary expression whose right operand is a string
    literal, its left operand (one layer of parentheses removed) standing
    for text; anything else stands for none.
   */
  function Fragments(n: Node): (r: Option<JString>) {
    match n
    case StringLiteral(v) => Some(v)
    case Infix(_, left, right) =>
      if !right.StringLiteral? then None
      else
        var l := if left.Parenthesized? then Fragments(left.expression) else Fragments(left);
        if l.None? then None else Some(l.value + right.value)
    case _ => None
  }

  /** What `concatStringNodes` returns for a property value. */
  function Concatenated(n: Node): (r: Option<JString>) {
    Fragments(Unparenthesized(n))
  }

  /**
    The operands of a chain of binary expressions, in source order: the
    left-most operand (parentheses removed as the visitor removes them) and
    then every right operand.
   */
  function Operands(n: Node): (r: seq<Node>)
    ensures |r| >= 1
  {
    if n.Infix? then
      (if n.left.Parenthesized? then Operands(n.left.expression) else Operands(n.left)) + [n.right]
    else [n]
  }

  /** The values of string literals, one after the other. */
  function JoinedValues(ops: seq<Node>): (r: JString)
    requires forall i | 0 <= i < |ops| :: ops[i].StringLiteral?
  {
    if ops == [] then [] else JoinedValues(ops[..|ops| - 1]) + ops[|ops| - 1].value
  }

  /**
    A value whose chain has only string literals as operands stands for
    their values joined in source order.
   */
  lemma {:induction false} FragmentsOfStrings(n: Node)
    requires forall i | 0 <= i < |Operands(n)| :: Operands(n)[i].StringLiteral?
    ensures Fragments(n) == Some(JoinedValues(Operands(n)))
  {
    if n.Infix? {
      var left := if n.left.Parenthesized? then n.left.expression else n.left;
      var ops := Operands(n);
      assert ops == Operands(left) + [n.right];
      forall i | 0 <= i < |Operands(left)| ensures Operands(left)[i].StringLiteral? {
        assert Operands(left)[i] == ops[i];
      }
      FragmentsOfStrings(left);
      assert ops[..|ops| - 1] == Operands(left);
      assert ops[|ops| - 1] == n.right;
      assert JoinedValues(ops) == JoinedValues(Operands(left)) + n.right.value;
    } else {
      assert Operands(n) == [n] && Operands(n)[0].StringLiteral?;
      assert Operands(n)[..0] == [];
      AppendEmpty(n.value);
    }
  }

  /** A single operand of the chain that is not a string literal makes the value stand for none. */
  lemma {:induction false} FragmentsOfNonString(n: Node, i: nat)
    requires i < |Operands(n)| && !Operands(n)[i].StringLiteral?
    ensures Fragments(n) == None
  {
    if n.Infix? {
      var left := if n.left.Parenthesized? then n.left.expression else n.left;
      assert Operands(n) == Operands(left) + [n.right];
      if i < |Operands(left)| {
        assert Operands(left)[i] == Operands(n)[i];
        FragmentsOfNonString(left, i);
      }
    }
  }

  /** `"p0" + "p1" + ... + "pn"`: the left-nested chain of string literals that JavaScript's `+` builds. */
  function PlusChain(parts: seq<JString>): (r: Node)
    requires parts != []
  {
    if |parts| == 1 then StringLiteral(parts[0])
    else Infix([PLUS], PlusChain(parts[..|parts| - 1]), StringLiteral(parts[|parts| - 1]))
  }

  /** A `+` chain of string literals, parenthesised or not, yields its fragments joined in source order. */
  lemma {:induction false} PlusChainConcatenated(parts: seq<JString>)
    requires parts != []
    ensures Concatenated(PlusChain(parts)) == Some(Flatten(parts))
    ensures Concatenated(Parenthesized(PlusChain(parts))) == Some(Flatten(parts))
    decreases |parts|
  {
    if |parts| == 1 {
      assert Flatten(parts) == parts[0] + Flatten(parts[1..]);
      assert parts[0] + [] == parts[0];
    } else {
      var init := parts[..|parts| - 1];
      PlusChainConcatenated(init);
      FlattenSnoc(init, parts[|parts| - 1]);
      assert parts == init + [parts[|parts| - 1]];
    }
  }

  /** Joining one more part adds it at the end. */
  lemma {:induction false} FlattenSnoc(parts: seq<JString>, p: JString)
    ensures Flatten(parts + [p]) == Flatten(parts) + p
    decreases |parts|
  {
    if parts == [] {
      assert Flatten([p]) == p + Flatten([p][1..]);
      assert p + [] == p;
    } else {
      assert (parts + [p])[1..] == parts[1..] + [p];
      FlattenSnoc(parts[1..], p);
      AppendAssoc(parts[0], Flatten(parts[1..]), p);
    }
  }

  /** Text in front of text that may be missing: missing stays missing. */
  function Prepended(t: Option<JString>, result: JString): (r: Option<JString>) {
    if t.None? then None else Some(t.value + result)
  }

  /**
    `concatStringNodes`: walk down the chain from its last operand, putting
    each right operand's value in front of what was gathered so far.
   */
  method ConcatStringNodes(value: Node) returns (r: Option<JString>)
    ensures r == Concatenated(value)
  {
    var result: JString := [];
    var node := Unparenthesized(value);
    if Fragments(node).Some? {
      AppendEmpty(Fragments(node).value);
    }
    while node.Infix?
      invariant Prepended(Fragments(node), result) == Concatenated(value)
      decreases node
    {
      var left := Unparenthesized(node.left);
      var right := node.right;
      if right.StringLiteral? {
        if Fragments(left).Some? {
          AppendAssoc(Fragments(left).value, right.value, result);
        }
        result := right.value + result;
      } else {
        return None;
      }
      node := left;
    }
    if node.StringLiteral? {
      result := node.value + result;
    } else {
      return None;
    }
    r := Some(result);
  }

  // ---------------------------------------------------------------------
  // The entries of an object literal

  /** The name a property key node gives: an identifier's name or a string literal's value; other nodes give none. */
  function KeyOf(n: Node): (r: Option<JString>)
    ensures r.Some? <==> n.StringLiteral? || n.Name?
  {
    if n.StringLiteral? then Some(n.value) else if n.Name? then Some(n.identifier) else None
  }

  /**
    `name.equalsIgnoreCase("root")`. No UTF-16 code unit other than the
    two letter cases of r, o and t folds to them, so the comparison is one
    of four letters in either case.
   */
  predicate IsRootName(s: JString) {
    |s| == 4 && (s[0] == 0x72 || s[0] == 0x52) && (s[1] == 0x6F || s[1] == 0x4F) &&
    (s[2] == 0x6F || s[2] == 0x4F) && (s[3] == 0x74 || s[3] == 0x54)
  }

  /** A property named `root` whose value, one layer of parentheses removed, is an object literal. */
  predicate IsRootBundle(p: Property) {
    KeyOf(p.left).Some? && IsRootName(KeyOf(p.left).value) && Unparenthesized(p.right).ObjectLiteral?
  }

  /** The properties of the value of the first `root` bundle among `props`, if there is one. */
  function RootProperties(props: seq<Property>): (r: Option<seq<Property>>) {
    if props == [] then None
    else if IsRootBundle(props[0]) then Some(Unparenthesized(props[0].right).elements)
    else RootProperties(props[1..])
  }

  /** The first `root` bundle supplies the entries: a later one, or an earlier `root` that holds no object, does not. */
  lemma {:induction false} FirstRootBundle(props: seq<Property>, i: nat)
    requires i < |props| && IsRootBundle(props[i])
    requires forall j | 0 <= j < i :: !IsRootBundle(props[j])
    ensures RootProperties(props) == Some(Unparenthesized(props[i].right).elements)
  {
    if i > 0 {
      assert !IsRootBundle(props[0]);
      FirstRootBundle(props[1..], i - 1);
    }
  }

  /** Without a `root` bundle the object literal supplies no root properties. */
  lemma {:induction false} NoRootBundle(props: seq<Property>)
    requires forall j | 0 <= j < |props| :: !IsRootBundle(props[j])
    ensures RootProperties(props) == None
  {
    if props != [] {
      NoRootBundle(props[1..]);
    }
  }

  /** The properties that give the entries: those of the `root` bundle, or else the object literal's own. */
  function EntryProperties(props: seq<Property>): (r: seq<Property>) {
    RootProperties(props).GetOr(props)
  }

  /** The key and value a property gives, if its key is a name or a string and its value stands for text. */
  function PropertyEntry(p: Property): (r: Option<(JString, JString)>)
    ensures r.Some? <==> KeyOf(p.left).Some? && Concatenated(p.right).Some?
  {
    var key := KeyOf(p.left);
    if key.None? then None
    else
      var value := Concatenated(p.right);
      if value.None? then None else Some((key.value, value.value))
  }

  /** The loop that looks for the `root` bundle: a key that is neither a name nor a string is passed over. */
  method FindRootProperties(props: seq<Property>) returns (kvProps: Option<seq<Property>>)
    ensures kvProps == RootProperties(props)
  {
    kvProps := None;
    var i := 0;
    while i < |props|
      invariant 0 <= i <= |props|
      invariant RootProperties(props) == RootProperties(props[i..])
    {
      var left := props[i].left;
      var name: JString;
      if left.StringLiteral? {
        name := left.value;
      } else if left.Name? {
        name := left.identifier;
      } else {
        assert props[i..][1..] == props[i + 1..];
        i := i + 1;
        continue;
      }
      var right := props[i].right;
      if IsRootName(name) {
        right := Unparenthesized(right);
        if right.ObjectLiteral? {
          kvProps := Some(right.elements);
          return;
        }
      }
      assert props[i..][1..] == props[i + 1..];
      i := i + 1;
    }
  }

  // ---------------------------------------------------------------------
  // The visitor's `LinkedHashMap`

  /** The visitor's map: its keys in insertion order, and the value of each. */
  datatype Elements = Elements(keys: seq<JString>, values: map<JString, JString>)

  const NO_ELEMENTS := Elements([], map[])

  /** The keys are distinct and are exactly the keys of the map. */
  predicate Ordered(e: Elements) {
    (forall i, j | 0 <= i < j < |e.keys| :: e.keys[i] != e.keys[j]) &&
    (forall k | k in e.values :: k in e.keys) &&
    (forall i | 0 <= i < |e.keys| :: e.keys[i] in e.values)
  }

  /** `LinkedHashMap.put`: a new key goes last; a key already there keeps its place and takes the new value. */
  function Put(e: Elements, k: JString, v: JString): (r: Elements)
    ensures r.values == e.values[k := v]
  {
    Elements(if k in e.values then e.keys else e.keys + [k], e.values[k := v])
  }

  /** Putting keeps the keys distinct and in step with the map; the keys already there keep their positions. */
  lemma PutOrdered(e: Elements, k: JString, v: JString)
    requires Ordered(e)
    ensures Ordered(Put(e, k, v))
    ensures |e.keys| <= |Put(e, k, v).keys| && Put(e, k, v).keys[..|e.keys|] == e.keys
    ensures k in e.values ==> Put(e, k, v).keys == e.keys
  {
    var r := Put(e, k, v);
    if k !in e.values {
      assert forall i | 0 <= i < |e.keys| :: r.keys[i] == e.keys[i];
      assert r.keys[|e.keys|] == k;
      assert r.keys[..|e.keys|] == e.keys;
    }
  }

  /** One property of the put loop: skipped unless it gives an entry. */
  function PutProperty(e: Elements, p: Property): (r: Elements) {
    var entry := PropertyEntry(p);
    if entry.None? then e else Put(e, entry.value.0, entry.value.1)
  }

  /** The put loop over `props`, in order. */
  function PutProperties(e: Elements, props: seq<Property>): (r: Elements)
    decreases |props|
  {
    if props == [] then e else PutProperties(PutProperty(e, props[0]), props[1..])
  }

  /** The put loop keeps the map ordered, and the keys already there keep their positions. */
  lemma {:induction false} PutPropertiesOrdered(e: Elements, props: seq<Property>)
    requires Ordered(e)
    ensures Ordered(PutProperties(e, props))
    ensures |e.keys| <= |PutProperties(e, props).keys| && PutProperties(e, props).keys[..|e.keys|] == e.keys
    decreases |props|
  {
    if props != [] {
      var e' := PutProperty(e, props[0]);
      if PropertyEntry(props[0]).Some? {
        PutOrdered(e, PropertyEntry(props[0]).value.0, PropertyEntry(props[0]).value.1);
      }
      PutPropertiesOrdered(e', props[1..]);
      var r := PutProperties(e', props[1..]);
      assert r.keys[..|e.keys|] == r.keys[..|e'.keys|][..|e.keys|];
    }
  }

  /** A key maps to the value of the last property that gives an entry with that key. */
  lemma {:induction false} PutPropertiesLastWins(e: Elements, props: seq<Property>, i: nat)
    requires i < |props| && PropertyEntry(props[i]).Some?
    requires forall j | i < j < |props| :: PropertyEntry(props[j]).None? || PropertyEntry(props[j]).value.0 != PropertyEntry(props[i]).value.0
    ensures var entry := PropertyEntry(props[i]).value;
      entry.0 in PutProperties(e, props).values && PutProperties(e, props).values[entry.0] == entry.1
    decreases |props|
  {
    var e' := PutProperty(e, props[0]);
    if i == 0 {
      PutPropertiesKeepsOthers(e', props[1..], PropertyEntry(props[0]).value.0);
    } else {
      PutPropertiesLastWins(e', props[1..], i - 1);
    }
  }

  /** A key no property gives an entry for keeps what it had. */
  lemma {:induction false} PutPropertiesKeepsOthers(e: Elements, props: seq<Property>, k: JString)
    requires forall j | 0 <= j < |props| :: PropertyEntry(props[j]).None? || PropertyEntry(props[j]).value.0 != k
    ensures k in PutProperties(e, props).values <==> k in e.values
    ensures k in e.values ==> PutProperties(e, props).values[k] == e.values[k]
    decreases |props|
  {
    if props != [] {
      PutPropertiesKeepsOthers(PutProperty(e, props[0]), props[1..], k);
    }
  }

  /** The entries an object literal met by the visitor adds to the map. */
  function ObjectEntries(e: Elements, props: seq<Property>): (r: Elements) {
    PutProperties(e, EntryProperties(props))
  }

  // ---------------------------------------------------------------------
  // The walk over the tree

  /**
    What the visitor has gathered after walking `n`, starting from `e`:
    Rhino's `visitAll` visits a node, then, unless the visitor said stop,
    its children in source order. The visitor says stop exactly at an
    object literal, so nothing inside one is walked.
   */
  function Collected(n: Node, e: Elements): (r: Elements)
    decreases n, 1
  {
    match n
    case ObjectLiteral(props) => ObjectEntries(e, props)
    case Parenthesized(x) => Collected(x, e)
    case Infix(_, l, r) => Collected(r, Collected(l, e))
    case Other(cs) => CollectedFrom(cs, 0, e)
    case _ => e
  }

  /** The walk over the children `cs[i..]`, in order. */
  function CollectedFrom(cs: seq<Node>, i: nat, e: Elements): (r: Elements)
    requires i <= |cs|
    decreases Other(cs), 0, |cs| - i
  {
    if i == |cs| then e else CollectedFrom(cs, i + 1, Collected(cs[i], e))
  }

  /** The walk keeps the map ordered and the keys already gathered in their places. */
  lemma {:induction false} CollectedOrdered(n: Node, e: Elements)
    requires Ordered(e)
    ensures Ordered(Collected(n, e))
    ensures |e.keys| <= |Collected(n, e).keys| && Collected(n, e).keys[..|e.keys|] == e.keys
    decreases n, 1
  {
    match n
    case ObjectLiteral(props) =>
      PutPropertiesOrdered(e, EntryProperties(props));
    case Parenthesized(x) =>
      CollectedOrdered(x, e);
    case Infix(_, l, r) =>
      CollectedOrdered(l, e);
      CollectedOrdered(r, Collected(l, e));
      var m := Collected(l, e);
      assert Collected(n, e).keys[..|e.keys|] == Collected(n, e).keys[..|m.keys|][..|e.keys|];
    case Other(cs) =>
      CollectedFromOrdered(cs, 0, e);
    case _ =>
  }

  lemma {:induction false} CollectedFromOrdered(cs: seq<Node>, i: nat, e: Elements)
    requires i <= |cs| && Ordered(e)
    ensures Ordered(CollectedFrom(cs, i, e))
    ensures |e.keys| <= |CollectedFrom(cs, i, e).keys| && CollectedFrom(cs, i, e).keys[..|e.keys|] == e.keys
    decreases Other(cs), 0, |cs| - i
  {
    if i < |cs| {
      var m := Collected(cs[i], e);
      CollectedOrdered(cs[i], e);
      CollectedFromOrdered(cs, i + 1, m);
      assert CollectedFrom(cs, i, e).keys[..|e.keys|] == CollectedFrom(cs, i, e).keys[..|m.keys|][..|e.keys|];
    }
  }

  /** `KeyValueVisitor`: its map is filled in as the tree is walked. */
  class KeyValueVisitor {
    var elements: Elements

    constructor ()
      ensures elements == NO_ELEMENTS
    {
      elements := NO_ELEMENTS;
    }

    /**
      `visit`: at an object literal, put the entries of its `root` bundle,
      or else its own, and stop; any other node changes nothing and the
      walk goes on.
     */
    method Visit(node: Node) returns (continueProcessing: bool)
      modifies this
      ensures continueProcessing <==> !node.ObjectLiteral?
      ensures node.ObjectLiteral? ==> elements == ObjectEntries(old(elements), node.elements)
      ensures !node.ObjectLiteral? ==> elements == old(elements)
    {
      continueProcessing := true;
      if node.ObjectLiteral? {
        var props := node.elements;
        var kvProps := FindRootProperties(props);
        var entries := if kvProps.None? then props else kvProps.value;
        PutAll(entries);
        continueProcessing := false;
      }
    }

    /** The loop that puts the key and value of each property, skipping those that give none. */
    method PutAll(kvProps: seq<Property>)
      modifies this
      ensures elements == PutProperties(old(elements), kvProps)
    {
      var i := 0;
      while i < |kvProps|
        invariant 0 <= i <= |kvProps|
        invariant PutProperties(elements, kvProps[i..]) == PutProperties(old(elements), kvProps)
      {
        var propKey := kvProps[i].left;
        var key: Option<JString> := None;
        if propKey.Name? {
          key := Some(propKey.identifier);
        } else if propKey.StringLiteral? {
          key := Some(propKey.value);
        }
        assert kvProps[i..][1..] == kvProps[i + 1..];
        if key.None? {
          i := i + 1;
          continue;
        }
        var val := ConcatStringNodes(kvProps[i].right);
        if val.None? {
          i := i + 1;
          continue;
        }
        elements := Put(elements, key.value, val.value);
        i := i + 1;
      }
    }
  }

  /** `root.visitAll(visitor)`: visit the node, then, unless told to stop, its children in order. */
  method VisitAll(node: Node, visitor: KeyValueVisitor)
    modifies visitor
    ensures visitor.elements == Collected(node, old(visitor.elements))
    decreases node, 1
  {
    var goOn := visitor.Visit(node);
    if !goOn {
      return;
    }
    match node {
      case Parenthesized(x) =>
        VisitAll(x, visitor);
      case Infix(_, l, r) =>
        VisitAll(l, visitor);
        VisitAll(r, visitor);
      case Other(cs) =>
        var i := 0;
        while i < |cs|
          invariant 0 <= i <= |cs|
          invariant CollectedFrom(cs, i, visitor.elements) == Collected(node, old(visitor.elements))
        {
          VisitAll(cs[i], visitor);
          i := i + 1;
        }
      case _ =>
    }
  }

  // ---------------------------------------------------------------------
  // parse

  /** The strings the auto-numbering builder makes of the gathered entries, in insertion order. */
  function AmdStrings(e: Elements): (r: seq<ResourceString>)
    requires Ordered(e)
    ensures |r| == |e.keys|
  {
    seq(|e.keys|, i requires 0 <= i < |e.keys| => ResourceString(e.keys[i], e.values[e.keys[i]], i + 1, None, None))
  }

  /** The strings of a parsed file: numbered 1, 2, 3, ... in the order their keys first appear, with distinct keys. */
  lemma AmdStringsShape(e: Elements)
    requires Ordered(e)
    ensures NumberedFromOne(AmdStrings(e)) && Sorted(AmdStrings(e))
    ensures forall i, j | 0 <= i < j < |AmdStrings(e)| :: AmdStrings(e)[i].key != AmdStrings(e)[j].key
    ensures forall k | k in e.values :: exists i | 0 <= i < |AmdStrings(e)| :: AmdStrings(e)[i].key == k && AmdStrings(e)[i].value == e.values[k]
  {
    NumberedFromOneIsSorted(AmdStrings(e));
    forall k | k in e.values
      ensures exists i | 0 <= i < |AmdStrings(e)| :: AmdStrings(e)[i].key == k && AmdStrings(e)[i].value == e.values[k]
    {
      var i :| 0 <= i < |e.keys| && e.keys[i] == k;
      assert AmdStrings(e)[i].key == k;
    }
  }

  /** The loop of `parse` over the map's entries. */
  method AddEntries(bb: LanguageBundleBuilder, e: Elements)
    requires Ordered(e)
    requires bb.Valid() && bb.autoSequenceNumbers && bb.resourceStrings == []
    modifies bb
    ensures bb.Valid() && bb.resourceStrings == AmdStrings(e)
    ensures bb.notes == old(bb.notes) && bb.embeddedLanguageCode == old(bb.embeddedLanguageCode)
  {
    var k := 0;
    while k < |e.keys|
      invariant 0 <= k <= |e.keys|
      invariant bb.Valid() && bb.autoSequenceNumbers && bb.resourceStrings == AmdStrings(e)[..k]
      invariant bb.notes == old(bb.notes) && bb.embeddedLanguageCode == old(bb.embeddedLanguageCode)
    {
      var key := e.keys[k];
      bb.AddKeyValue(key, e.values[key]);
      assert AmdStrings(e)[..k + 1] == AmdStrings(e)[..k] + [AmdStrings(e)[k]];
      k := k + 1;
    }
    assert AmdStrings(e)[..k] == AmdStrings(e);
  }

  /** `parse`: walk the syntax tree with a fresh visitor, then add its entries to an auto-numbering builder. */
  method Parse(root: Node) returns (b: LanguageBundle)
    ensures Ordered(Collected(root, NO_ELEMENTS))
    ensures fresh(b)
    ensures b.resourceStrings == Some(AmdStrings(Collected(root, NO_ELEMENTS)))
    ensures b.notes == Some([]) && b.embeddedLanguageCode.None?
  {
    var bb := new LanguageBundleBuilder(true);
    var visitor := new KeyValueVisitor();
    VisitAll(root, visitor);
    CollectedOrdered(root, NO_ELEMENTS);
    AddEntries(bb, visitor.elements);
    b := bb.Build();
  }
}
