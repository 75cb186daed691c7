/** The part of ElementTree the two converters use: an element with a tag,
    an attribute dictionary that remembers insertion order, and a list of
    children that SubElement appends to. */
module Xml {
  import opened Text

  type Attributes = seq<(string, string)>

  predicate HasKey(attrs: Attributes, key: string) {
    exists i :: 0 <= i < |attrs| && attrs[i].0 == key
  }

  /** The value stored under `key` (the first entry with that name). */
  function Lookup(attrs: Attributes, key: string): (v: Option<string>)
    ensures v.Some? <==> HasKey(attrs, key)
  {
    if attrs == [] then None
    else if attrs[0].0 == key then Some(attrs[0].1)
    else
      assert forall i :: 1 <= i < |attrs| ==> attrs[1..][i - 1] == attrs[i];
      Lookup(attrs[1..], key)
  }

  /** An entry whose name no earlier entry has is what Lookup finds. */
  lemma {:induction false} LookupAt(attrs: Attributes, i: nat)
    requires i < |attrs|
    requires forall j :: 0 <= j < i ==> attrs[j].0 != attrs[i].0
    ensures Lookup(attrs, attrs[i].0) == Some(attrs[i].1)
  {
    if i > 0 {
      LookupAt(attrs[1..], i - 1);
    }
  }

  /** Names appear at most once. */
  predicate UniqueKeys(attrs: Attributes) {
    forall i, j :: 0 <= i < j < |attrs| ==> attrs[i].0 != attrs[j].0
  }

  /** elem.set(key, value) on the attribute dictionary: an existing name
      keeps its place and takes the new value; a new name goes last. */
  function SetAttr(attrs: Attributes, key: string, value: string): Attributes {
    if attrs == [] then [(key, value)]
    else if attrs[0].0 == key then [(key, value)] + attrs[1..]
    else [attrs[0]] + SetAttr(attrs[1..], key, value)
  }

  /** After setting, the name holds the new value and every other name
      holds what it held before. */
  lemma {:induction false} SetAttrLookup(attrs: Attributes, key: string, value: string)
    ensures Lookup(SetAttr(attrs, key, value), key) == Some(value)
    ensures forall k :: k != key ==> Lookup(SetAttr(attrs, key, value), k) == Lookup(attrs, k)
  {
    if attrs != [] && attrs[0].0 != key {
      SetAttrLookup(attrs[1..], key, value);
    }
  }

  /** Setting a name that is already there keeps the names and their
      order; setting a new name appends it. */
  lemma {:induction false} SetAttrPlace(attrs: Attributes, key: string, value: string)
    ensures var r := SetAttr(attrs, key, value);
            (HasKey(attrs, key) ==> |r| == |attrs| && forall i :: 0 <= i < |r| ==> r[i].0 == attrs[i].0) &&
            (!HasKey(attrs, key) ==> r == attrs + [(key, value)])
  {
    if attrs != [] && attrs[0].0 != key {
      SetAttrPlace(attrs[1..], key, value);
      assert forall i :: 1 <= i < |attrs| ==> attrs[1..][i - 1] == attrs[i];
      assert HasKey(attrs, key) ==> HasKey(attrs[1..], key);
      assert HasKey(attrs[1..], key) ==> HasKey(attrs, key) by {
        if HasKey(attrs[1..], key) {
          var i :| 0 <= i < |attrs[1..]| && attrs[1..][i].0 == key;
          assert attrs[i + 1].0 == key;
        }
      }
    }
  }

  /** Setting a name no entry has appends it. */
  lemma SetAttrNew(attrs: Attributes, key: string, value: string)
    requires forall i :: 0 <= i < |attrs| ==> attrs[i].0 != key
    ensures SetAttr(attrs, key, value) == attrs + [(key, value)]
  {
    SetAttrPlace(attrs, key, value);
  }

  /** Setting never introduces a duplicate name. */
  lemma SetAttrUnique(attrs: Attributes, key: string, value: string)
    requires UniqueKeys(attrs)
    ensures UniqueKeys(SetAttr(attrs, key, value))
  {
    SetAttrPlace(attrs, key, value);
    var r := SetAttr(attrs, key, value);
    if !HasKey(attrs, key) {
      forall i, j | 0 <= i < j < |r| ensures r[i].0 != r[j].0 {
        if j == |attrs| {
          assert attrs[i].0 != key;
        }
      }
    }
  }

  class Element {
    var tag: string
    var attrib: Attributes
    var children: seq<Element>

    /** ET.Element(tag). */
    constructor (tag: string)
      ensures this.tag == tag && attrib == [] && children == []
    {
      this.tag := tag;
      attrib := [];
      children := [];
    }

    /** elem.set(key, value). */
    method Set(key: string, value: string)
      modifies this
      ensures attrib == SetAttr(old(attrib), key, value)
      ensures tag == old(tag) && children == old(children)
    {
      attrib := SetAttr(attrib, key, value);
    }

    /** ET.SubElement(this, tag): a new empty element appended as the last
        child. */
    method SubElement(tag: string) returns (e: Element)
      modifies this
      ensures fresh(e) && e.tag == tag && e.attrib == [] && e.children == []
      ensures children == old(children) + [e]
      ensures this.tag == old(this.tag) && attrib == old(attrib)
    {
      e := new Element(tag);
      children := children + [e];
    }
  }
}
