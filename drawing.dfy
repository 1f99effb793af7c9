/**
 * The SVG element tree of the drawing module: a `GenericElement` with a name,
 * an insertion-ordered attribute map and a list of children, the three
 * element kinds that pre-fill an attribute template, and the test scenario
 * that builds a small drawing.
 */
module Drawing {
  import opened Wrappers
  import opened AttrMap

  const SvgNamespace: string := "http://www.w3.org/2000/svg"

  /** A generic SVG element; `Root`, `Rectangle` and `Text` are its pre-filled kinds. */
  class Element {
    const name: string
    var attrs: Attrs
    var children: seq<Element>

    /** The attribute map never holds a name twice. */
    ghost predicate Valid()
      reads this
    {
      UniqueKeys(attrs)
    }

    /** A named element with no attributes and no children. */
    constructor (name: string)
      ensures Valid()
      ensures this.name == name && attrs == [] && children == []
    {
      this.name := name;
      attrs := [];
      children := [];
    }

    /** The root `svg` element: its only attribute is the namespace. */
    constructor Root()
      ensures Valid()
      ensures name == "svg" && attrs == [("xmlns", Str(SvgNamespace))] && children == []
    {
      name := "svg";
      attrs := [];
      children := [];
      new;
      var _ := AddAttr("xmlns", Str(SvgNamespace));
    }

    /** A `rect` element with the attributes x, y, width, height and fill, in that order. */
    constructor Rectangle(x: Value, y: Value, width: Value, height: Value, fill: Value)
      ensures Valid()
      ensures name == "rect" && children == []
      ensures attrs == [("x", x), ("y", y), ("width", width), ("height", height), ("fill", fill)]
    {
      name := "rect";
      attrs := [];
      children := [];
      new;
      var _ := AddAttr("x", x);
      var _ := AddAttr("y", y);
      var _ := AddAttr("width", width);
      var _ := AddAttr("height", height);
      var _ := AddAttr("fill", fill);
    }

    /** A `text` element; its content is stored as the last attribute, `content`. */
    constructor Text(x: Value, y: Value, fontSize: Value, fill: Value, content: Value)
      ensures Valid()
      ensures name == "text" && children == []
      ensures attrs == [("x", x), ("y", y), ("fontSize", fontSize), ("fill", fill), ("content", content)]
    {
      name := "text";
      attrs := [];
      children := [];
      new;
      var _ := AddAttr("x", x);
      var _ := AddAttr("y", y);
      var _ := AddAttr("fontSize", fontSize);
      var _ := AddAttr("fill", fill);
      var _ := AddAttr("content", content);
    }

    /**
     * Adds the attribute only if its name is absent; a present name keeps its
     * place and its old value.
     */
    method AddAttr(key: string, value: Value) returns (added: bool)
      requires Valid()
      modifies this
      ensures Valid()
      ensures added <==> !Has(old(attrs), key)
      ensures attrs == if added then old(attrs) + [(key, value)] else old(attrs)
      ensures Get(attrs, key) == if added then Some(value) else Get(old(attrs), key)
      ensures children == old(children)
    {
      if Has(attrs, key) {
        return false;
      }
      AppendUnique(attrs, key, value);
      attrs := Put(attrs, key, value);
      return true;
    }

    /** Sets the attribute: a present name keeps its place, an absent one is appended. */
    method SetAttr(key: string, value: Value)
      requires Valid()
      modifies this
      ensures Valid()
      ensures attrs == Put(old(attrs), key, value)
      ensures Keys(attrs) == if Has(old(attrs), key) then Keys(old(attrs)) else Keys(old(attrs)) + [key]
      ensures forall k :: Get(attrs, k) == if k == key then Some(value) else Get(old(attrs), k)
      ensures children == old(children)
    {
      PutUnique(attrs, key, value);
      if !Has(attrs, key) {
        KeysAppend(attrs, [(key, value)]);
      }
      attrs := Put(attrs, key, value);
    }

    /**
     * Adds the given entries, in order, each only if its name is absent at
     * that point; returns how many were added.
     */
    method AddAttrs(entries: Attrs) returns (count: nat)
      requires Valid()
      modifies this
      ensures Valid()
      ensures attrs == AddAll(old(attrs), entries)
      ensures count == |attrs| - |old(attrs)|
      ensures attrs[..|old(attrs)|] == old(attrs)
      ensures forall k :: Has(old(attrs), k) ==> Get(attrs, k) == Get(old(attrs), k)
      ensures forall e :: e in entries ==> Has(attrs, e.0)
      ensures UniqueKeys(entries) ==> attrs == old(attrs) + Fresh(old(attrs), entries)
      ensures UniqueKeys(entries) ==> count == |Fresh(old(attrs), entries)|
      ensures children == old(children)
    {
      count := 0;
      var i := 0;
      while i < |entries|
        invariant 0 <= i <= |entries|
        invariant Valid()
        invariant attrs == AddAll(old(attrs), entries[..i])
        invariant count == |attrs| - |old(attrs)|
        invariant children == old(children)
      {
        assert entries[..i + 1][..i] == entries[..i];
        var added := AddAttr(entries[i].0, entries[i].1);
        if added {
          count := count + 1;
        }
        i := i + 1;
      }
      assert entries[..i] == entries;
      AddAllExtends(old(attrs), entries);
      if UniqueKeys(entries) {
        AddAllIsAppendFresh(old(attrs), entries);
      }
    }

    /**
     * Removes the attributes with the given names, where present; returns how
     * many were removed.
     */
    method RemoveAttrs(names: seq<string>) returns (count: nat)
      requires Valid()
      modifies this
      ensures Valid()
      ensures attrs == DeleteAll(old(attrs), names)
      ensures attrs == Keep(old(attrs), names)
      ensures count == |old(attrs)| - |attrs|
      ensures count == |set n | n in names && Has(old(attrs), n)|
      ensures forall n :: n in names ==> !Has(attrs, n)
      ensures children == old(children)
    {
      count := 0;
      var i := 0;
      while i < |names|
        invariant 0 <= i <= |names|
        invariant Valid()
        invariant attrs == DeleteAll(old(attrs), names[..i])
        invariant count == |old(attrs)| - |attrs|
        invariant children == old(children)
      {
        assert names[..i + 1][..i] == names[..i];
        var present := Has(attrs, names[i]);
        DeleteUnique(attrs, names[i]);
        attrs := Delete(attrs, names[i]);
        if present {
          count := count + 1;
        }
        i := i + 1;
      }
      assert names[..i] == names;
      RemovalSummary(old(attrs), names);
    }

    /** Appends a child; the name and the attributes do not change. */
    method AddChild(child: Element)
      requires Valid()
      modifies this
      ensures Valid()
      ensures children == old(children) + [child]
      ensures attrs == old(attrs)
    {
      children := children + [child];
    }
  }

  /** Lines 118-120 of the test: the root sized 800 by 170, two extra attributes added and removed again. */
  method SizedRoot() returns (root: Element, removed: nat)
    ensures fresh(root) && root.Valid() && root.name == "svg" && root.children == []
    ensures root.attrs == [("xmlns", Str(SvgNamespace)), ("width", Num(800)), ("height", Num(170))]
    ensures removed == 2
  {
    root := new Element.Root();
    ScenarioSizeFresh();
    var _ := root.AddAttrs(ScenarioSize);
    ScenarioTrimKept();
    removed := root.RemoveAttrs(ScenarioTrim);
  }

  /** Lines 123-126 of the test: a circle with r and fill added one by one, then cx and cy in bulk. */
  method Circle() returns (c: Element)
    ensures fresh(c) && c.Valid() && c.name == "circle" && c.children == []
    ensures c.attrs == [("r", Num(75)), ("fill", Str("yellow")), ("cx", Num(200)), ("cy", Num(80))]
  {
    c := new Element("circle");
    ScenarioCircleFresh();
    var _ := c.AddAttr("r", Num(75));
    var _ := c.AddAttr("fill", Str("yellow"));
    assert c.attrs == [("r", Num(75)), ("fill", Str("yellow"))];
    var _ := c.AddAttrs(ScenarioCenter);
    assert c.attrs == [("r", Num(75)), ("fill", Str("yellow"))] + ScenarioCenter;
  }

  /**
   * The whole test drawing: the sized root with a yellow circle, a blue
   * rectangle and a red text as its children. Returns the root's attributes,
   * the count the removal reported, the circle's attributes and the names of
   * the root's children.
   */
  method Scenario() returns (rootAttrs: Attrs, removed: nat, circleAttrs: Attrs, childNames: seq<string>)
    ensures rootAttrs == [("xmlns", Str(SvgNamespace)), ("width", Num(800)), ("height", Num(170))]
    ensures removed == 2
    ensures circleAttrs == [("r", Num(75)), ("fill", Str("yellow")), ("cx", Num(200)), ("cy", Num(80))]
    ensures childNames == ["circle", "rect", "text"]
  {
    var root;
    root, removed := SizedRoot();

    var c := Circle();
    root.AddChild(c);

    var r := new Element.Rectangle(Num(0), Num(0), Num(200), Num(100), Str("blue"));
    root.AddChild(r);

    // The text ends in the four characters the source file holds there (U+00F0 U+0178 U+02DC U+00AC).
    var t := new Element.Text(Num(50), Num(70), Num(70), Str("red"), Str("wat is a prototype? \U{F0}\U{178}\U{2DC}\U{AC}"));
    root.AddChild(t);

    rootAttrs, circleAttrs := root.attrs, c.attrs;
    childNames := [root.children[0].name, root.children[1].name, root.children[2].name];
  }

  const ScenarioSize: Attrs := [("width", Num(800)), ("height", Num(170)), ("abc", Num(200)), ("def", Num(400))]
  const ScenarioTrim: seq<string> := ["abc", "def", "non-existent-attribute"]
  const ScenarioCenter: Attrs := [("cx", Num(200)), ("cy", Num(80))]

  /** The sizes added to the root have distinct names, none of them already present. */
  lemma ScenarioSizeFresh()
    ensures UniqueKeys(ScenarioSize)
    ensures Fresh([("xmlns", Str(SvgNamespace))], ScenarioSize) == ScenarioSize
  {
    assert Keys(ScenarioSize) == ["width", "height", "abc", "def"];
    assert Keys([("xmlns", Str(SvgNamespace))]) == ["xmlns"];
    FreshAbsent([("xmlns", Str(SvgNamespace))], ScenarioSize);
  }

  /** Removing abc, def and an unknown name from the sized root leaves its first three attributes. */
  lemma ScenarioTrimKept()
    ensures Keep([("xmlns", Str(SvgNamespace))] + ScenarioSize, ScenarioTrim)
         == [("xmlns", Str(SvgNamespace)), ("width", Num(800)), ("height", Num(170))]
  {
    KeepSplit([("xmlns", Str(SvgNamespace))] + ScenarioSize, ScenarioTrim, 3);
  }

  /** The circle's attributes are added under distinct names, none of them already present. */
  lemma ScenarioCircleFresh()
    ensures !Has([("r", Num(75))], "fill")
    ensures UniqueKeys(ScenarioCenter)
    ensures Fresh([("r", Num(75)), ("fill", Str("yellow"))], ScenarioCenter) == ScenarioCenter
  {
    assert Keys(ScenarioCenter) == ["cx", "cy"];
    assert Keys([("r", Num(75)), ("fill", Str("yellow"))]) == ["r", "fill"];
    FreshAbsent([("r", Num(75)), ("fill", Str("yellow"))], ScenarioCenter);
  }
}
