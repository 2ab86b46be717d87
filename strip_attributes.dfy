/**
 * The attribute stripper of the raw-content handling: it sanitises a pasted
 * DOM element in place, removing every attribute the whitelist does not
 * allow and narrowing `class` to its whitelisted tokens. The two whitelist
 * predicates live in another file and are parameters here.
 */
module StripAttributes {
  import opened Wrappers
  import opened Strings

  /** `Node.ELEMENT_NODE`. */
  const ELEMENT_NODE: int := 1

  /** One attribute of an element, as `node.attributes` lists it. */
  datatype Attr = Attr(name: string, value: string)

  /** The names the attributes carry. */
  function Names(attrs: seq<Attr>): (r: set<string>) {
    set a | a in attrs :: a.name
  }

  /** An element never carries two attributes of the same name. */
  predicate DistinctNames(attrs: seq<Attr>) {
    forall i, j :: 0 <= i < j < |attrs| ==> attrs[i].name != attrs[j].name
  }

  /** `node.getAttribute( name )`: the value of the first attribute of that name, `null` when there is none. */
  function Lookup(attrs: seq<Attr>, name: string): (r: Option<string>)
    ensures r.None? <==> name !in Names(attrs)
    ensures r.Some? ==> Attr(name, r.value) in attrs
    decreases |attrs|
  {
    if attrs == [] then None
    else if attrs[0].name == name then Some(attrs[0].value)
    else Lookup(attrs[1..], name)
  }

  /** The attribute list after `node.removeAttribute( name )`. */
  function WithoutAttribute(attrs: seq<Attr>, name: string): (r: seq<Attr>)
    ensures forall a :: a in r <==> a in attrs && a.name != name
    decreases |attrs|
  {
    if attrs == [] then []
    else (if attrs[0].name == name then [] else [attrs[0]]) + WithoutAttribute(attrs[1..], name)
  }

  /**
   * The attribute list after `node.setAttribute( name, value )`: the value
   * of an attribute of that name is replaced where it stands, and a new
   * attribute is appended when there is none.
   */
  function WithAttribute(attrs: seq<Attr>, name: string, value: string): (r: seq<Attr>)
    ensures forall a: Attr :: a.name != name ==> (a in r <==> a in attrs)
    ensures Lookup(r, name) == Some(value)
    decreases |attrs|
  {
    if attrs == [] then [Attr(name, value)]
    else if attrs[0].name == name then [Attr(name, value)] + attrs[1..]
    else [attrs[0]] + WithAttribute(attrs[1..], name, value)
  }

  /** Whether the first pass keeps an attribute: `class` always, anything else when whitelisted for the tag. */
  predicate Kept(a: Attr, tag: string, isAttributeWhitelisted: (string, string) -> bool) {
    a.name == "class" || isAttributeWhitelisted(tag, a.name)
  }

  /** The attributes the first pass leaves, in their order. */
  function KeepWhitelisted(attrs: seq<Attr>, tag: string, isAttributeWhitelisted: (string, string) -> bool): (r: seq<Attr>)
    ensures forall a :: a in r <==> a in attrs && Kept(a, tag, isAttributeWhitelisted)
    ensures |r| <= |attrs|
    decreases |attrs|
  {
    if attrs == [] then []
    else
      (if Kept(attrs[0], tag, isAttributeWhitelisted) then [attrs[0]] else [])
      + KeepWhitelisted(attrs[1..], tag, isAttributeWhitelisted)
  }

  /** `tokens.filter( ( name ) => name && isClassWhitelisted( tag, name ) )`. */
  function FilterClasses(tokens: seq<string>, tag: string, isClassWhitelisted: (string, string) -> bool): (r: seq<string>)
    ensures forall t :: t in r <==> t in tokens && t != "" && isClassWhitelisted(tag, t)
    ensures |r| <= |tokens|
    decreases |tokens|
  {
    if tokens == [] then []
    else
      (if tokens[0] != "" && isClassWhitelisted(tag, tokens[0]) then [tokens[0]] else [])
      + FilterClasses(tokens[1..], tag, isClassWhitelisted)
  }

  /**
   * The attributes of a node after stripping, as a function of its type,
   * its name and its attributes before.
   */
  function Stripped(nodeType: int, nodeName: string, attrs: seq<Attr>,
                    isAttributeWhitelisted: (string, string) -> bool,
                    isClassWhitelisted: (string, string) -> bool): (r: seq<Attr>)
    ensures nodeType != ELEMENT_NODE ==> r == attrs
    ensures attrs == [] ==> r == []
  {
    if nodeType != ELEMENT_NODE || attrs == [] then attrs
    else
      var tag := ToLowerAscii(nodeName);
      var kept := KeepWhitelisted(attrs, tag, isAttributeWhitelisted);
      var oldClasses := Lookup(kept, "class");
      if oldClasses.None? || oldClasses.value == "" then kept
      else
        var newClasses := FilterClasses(Split(oldClasses.value, ' '), tag, isClassWhitelisted);
        if |newClasses| > 0 then WithAttribute(kept, "class", Join(newClasses, " "))
        else WithoutAttribute(kept, "class")
  }

  /** A DOM node: its type and name are fixed, its attribute list changes in place. */
  class Node {
    const nodeType: int
    const nodeName: string
    var attributes: seq<Attr>

    ghost predicate Valid()
      reads this
    {
      DistinctNames(attributes)
    }

    constructor (nodeType: int, nodeName: string, attributes: seq<Attr>)
      requires DistinctNames(attributes)
      ensures this.nodeType == nodeType && this.nodeName == nodeName && this.attributes == attributes
      ensures Valid()
    {
      this.nodeType := nodeType;
      this.nodeName := nodeName;
      this.attributes := attributes;
    }

    /** `node.hasAttributes()`. */
    function HasAttributes(): (r: bool)
      reads this
    {
      |attributes| > 0
    }

    /** `node.getAttribute( name )`. */
    function GetAttribute(name: string): (r: Option<string>)
      reads this
      ensures r.None? <==> name !in Names(attributes)
    {
      Lookup(attributes, name)
    }

    /** `node.removeAttribute( name )`. */
    method RemoveAttribute(name: string)
      requires Valid()
      modifies this
      ensures attributes == WithoutAttribute(old(attributes), name)
      ensures Valid()
    {
      WithoutAttributeKeepsDistinct(attributes, name);
      attributes := WithoutAttribute(attributes, name);
    }

    /** `node.setAttribute( name, value )`. */
    method SetAttribute(name: string, value: string)
      requires Valid()
      modifies this
      ensures attributes == WithAttribute(old(attributes), name, value)
      ensures Valid()
    {
      WithAttributeKeepsDistinct(attributes, name, value);
      attributes := WithAttribute(attributes, name, value);
    }
  }

  /** The default export: strips `node` in place. */
  method Strip(node: Node, isAttributeWhitelisted: (string, string) -> bool, isClassWhitelisted: (string, string) -> bool)
    requires node.Valid()
    modifies node
    ensures node.attributes == Stripped(node.nodeType, node.nodeName, old(node.attributes), isAttributeWhitelisted, isClassWhitelisted)
    ensures node.Valid()
  {
    if node.nodeType != ELEMENT_NODE {
      return;
    }
    if !node.HasAttributes() {
      return;
    }
    var tag := ToLowerAscii(node.nodeName);
    var snapshot := node.attributes;
    var i := 0;
    while i < |snapshot|
      invariant 0 <= i <= |snapshot|
      invariant node.attributes == KeepWhitelisted(snapshot[..i], tag, isAttributeWhitelisted) + snapshot[i..]
      invariant node.Valid()
    {
      var name := snapshot[i].name;
      if name == "class" || isAttributeWhitelisted(tag, name) {
        KeepStep(snapshot, i, tag, isAttributeWhitelisted);
      } else {
        RemoveStep(snapshot, i, tag, isAttributeWhitelisted);
        node.RemoveAttribute(name);
      }
      i := i + 1;
    }
    assert snapshot[..i] == snapshot;
    assert snapshot[i..] == [];
    assert node.attributes == KeepWhitelisted(snapshot, tag, isAttributeWhitelisted);
    var oldClasses := node.GetAttribute("class");
    if oldClasses.None? || oldClasses.value == "" {
      return;
    }
    var newClasses := FilterClasses(Split(oldClasses.value, ' '), tag, isClassWhitelisted);
    if |newClasses| > 0 {
      node.SetAttribute("class", Join(newClasses, " "));
    } else {
      node.RemoveAttribute("class");
    }
  }

  // ---------------------------------------------------------------------
  // The first pass, one attribute at a time
  // ---------------------------------------------------------------------

  lemma {:induction false} KeepConcat(a: seq<Attr>, b: seq<Attr>, tag: string, isAttributeWhitelisted: (string, string) -> bool)
    ensures KeepWhitelisted(a + b, tag, isAttributeWhitelisted) ==
      KeepWhitelisted(a, tag, isAttributeWhitelisted) + KeepWhitelisted(b, tag, isAttributeWhitelisted)
    decreases |a|
  {
    if a == [] {
      assert a + b == b;
    } else {
      assert (a + b)[0] == a[0];
      assert (a + b)[1..] == a[1..] + b;
      KeepConcat(a[1..], b, tag, isAttributeWhitelisted);
    }
  }

  lemma {:induction false} WithoutConcat(a: seq<Attr>, b: seq<Attr>, name: string)
    ensures WithoutAttribute(a + b, name) == WithoutAttribute(a, name) + WithoutAttribute(b, name)
    decreases |a|
  {
    if a == [] {
      assert a + b == b;
    } else {
      assert (a + b)[0] == a[0];
      assert (a + b)[1..] == a[1..] + b;
      WithoutConcat(a[1..], b, name);
    }
  }

  lemma {:induction false} WithoutAbsent(a: seq<Attr>, name: string)
    requires name !in Names(a)
    ensures WithoutAttribute(a, name) == a
    decreases |a|
  {
    if a != [] {
      assert a[0] in a;
      assert Names(a[1..]) <= Names(a) by {
        forall x | x in Names(a[1..]) ensures x in Names(a) {
          var b :| b in a[1..] && b.name == x;
          assert b in a;
        }
      }
      WithoutAbsent(a[1..], name);
      assert [a[0]] + a[1..] == a;
    }
  }

  /** A kept attribute moves from the unvisited suffix into the kept prefix. */
  lemma KeepStep(s: seq<Attr>, i: nat, tag: string, isAttributeWhitelisted: (string, string) -> bool)
    requires i < |s| && Kept(s[i], tag, isAttributeWhitelisted)
    ensures KeepWhitelisted(s[..i], tag, isAttributeWhitelisted) + s[i..] ==
      KeepWhitelisted(s[..i + 1], tag, isAttributeWhitelisted) + s[i + 1..]
  {
    assert s[..i + 1] == s[..i] + [s[i]];
    KeepConcat(s[..i], [s[i]], tag, isAttributeWhitelisted);
    assert KeepWhitelisted([s[i]], tag, isAttributeWhitelisted) == [s[i]] + KeepWhitelisted([], tag, isAttributeWhitelisted);
    assert s[i..] == [s[i]] + s[i + 1..];
  }

  /** A name absent from the visited prefix of a list with distinct names is absent from what the first pass kept of it. */
  lemma NameNotKeptBefore(s: seq<Attr>, i: nat, tag: string, isAttributeWhitelisted: (string, string) -> bool)
    requires DistinctNames(s) && i < |s|
    ensures s[i].name !in Names(KeepWhitelisted(s[..i], tag, isAttributeWhitelisted))
  {
    var kept := KeepWhitelisted(s[..i], tag, isAttributeWhitelisted);
    forall a | a in kept ensures a.name != s[i].name {
      assert a in s[..i];
      var j :| 0 <= j < i && s[..i][j] == a;
      assert s[j] == a;
    }
  }

  /** With distinct names, the name of `s[i]` does not occur after it. */
  lemma NameNotAfter(s: seq<Attr>, i: nat)
    requires DistinctNames(s) && i < |s|
    ensures s[i].name !in Names(s[i + 1..])
  {
    forall a | a in s[i + 1..] ensures a.name != s[i].name {
      var j :| 0 <= j < |s| - i - 1 && s[i + 1..][j] == a;
      assert s[i + 1 + j] == a;
    }
  }

  /** Removing an unwhitelisted attribute by name drops exactly that attribute, since names are distinct. */
  lemma RemoveStep(s: seq<Attr>, i: nat, tag: string, isAttributeWhitelisted: (string, string) -> bool)
    requires DistinctNames(s)
    requires i < |s| && !Kept(s[i], tag, isAttributeWhitelisted)
    ensures WithoutAttribute(KeepWhitelisted(s[..i], tag, isAttributeWhitelisted) + s[i..], s[i].name) ==
      KeepWhitelisted(s[..i + 1], tag, isAttributeWhitelisted) + s[i + 1..]
  {
    var kept := KeepWhitelisted(s[..i], tag, isAttributeWhitelisted);
    DropStep(s, i, tag, isAttributeWhitelisted);
    assert s[i..] == [s[i]] + s[i + 1..];
    NameNotKeptBefore(s, i, tag, isAttributeWhitelisted);
    NameNotAfter(s, i);
    WithoutOnly(kept, s[i], s[i + 1..]);
  }

  /** An attribute that is not kept adds nothing to the kept prefix. */
  lemma DropStep(s: seq<Attr>, i: nat, tag: string, isAttributeWhitelisted: (string, string) -> bool)
    requires i < |s| && !Kept(s[i], tag, isAttributeWhitelisted)
    ensures KeepWhitelisted(s[..i + 1], tag, isAttributeWhitelisted) == KeepWhitelisted(s[..i], tag, isAttributeWhitelisted)
  {
    assert s[..i + 1] == s[..i] + [s[i]];
    KeepConcat(s[..i], [s[i]], tag, isAttributeWhitelisted);
    assert KeepWhitelisted([s[i]], tag, isAttributeWhitelisted) == [];
  }

  /** Removing the name of `x`, which occurs nowhere else, drops just `x`. */
  lemma WithoutOnly(before: seq<Attr>, x: Attr, after: seq<Attr>)
    requires x.name !in Names(before) && x.name !in Names(after)
    ensures WithoutAttribute(before + ([x] + after), x.name) == before + after
  {
    WithoutConcat(before, [x] + after, x.name);
    WithoutConcat([x], after, x.name);
    WithoutAbsent(before, x.name);
    WithoutAbsent(after, x.name);
    assert WithoutAttribute([x], x.name) == [];
    assert WithoutAttribute([x] + after, x.name) == after;
  }

  // ---------------------------------------------------------------------
  // Distinct names
  // ---------------------------------------------------------------------

  /** Putting an attribute in front of a list without its name keeps the names distinct. */
  lemma DistinctCons(x: Attr, rest: seq<Attr>)
    requires DistinctNames(rest)
    requires forall a :: a in rest ==> a.name != x.name
    ensures DistinctNames([x] + rest)
  {
    var r := [x] + rest;
    forall i, j | 0 <= i < j < |r| ensures r[i].name != r[j].name {
      assert r[j] == rest[j - 1];
      if i > 0 {
        assert r[i] == rest[i - 1];
      } else {
        assert r[j] in rest;
      }
    }
  }

  /** The head of a list with distinct names does not recur in its tail, and the tail keeps distinct names. */
  lemma DistinctTail(attrs: seq<Attr>)
    requires attrs != [] && DistinctNames(attrs)
    ensures DistinctNames(attrs[1..])
    ensures forall a :: a in attrs[1..] ==> a.name != attrs[0].name
  {
    forall a | a in attrs[1..] ensures a.name != attrs[0].name {
      var j :| 0 <= j < |attrs| - 1 && attrs[1..][j] == a;
      assert attrs[j + 1] == a;
    }
  }

  lemma {:induction false} WithoutAttributeKeepsDistinct(attrs: seq<Attr>, name: string)
    requires DistinctNames(attrs)
    ensures DistinctNames(WithoutAttribute(attrs, name))
    decreases |attrs|
  {
    if attrs != [] {
      DistinctTail(attrs);
      WithoutAttributeKeepsDistinct(attrs[1..], name);
      var rest := WithoutAttribute(attrs[1..], name);
      if attrs[0].name != name {
        DistinctCons(attrs[0], rest);
        assert WithoutAttribute(attrs, name) == [attrs[0]] + rest;
      } else {
        assert WithoutAttribute(attrs, name) == rest;
      }
    }
  }

  lemma {:induction false} WithAttributeKeepsDistinct(attrs: seq<Attr>, name: string, value: string)
    requires DistinctNames(attrs)
    ensures DistinctNames(WithAttribute(attrs, name, value))
    decreases |attrs|
  {
    if attrs != [] {
      DistinctTail(attrs);
      if attrs[0].name == name {
        DistinctCons(Attr(name, value), attrs[1..]);
      } else {
        WithAttributeKeepsDistinct(attrs[1..], name, value);
        var rest := WithAttribute(attrs[1..], name, value);
        forall a | a in rest ensures a.name != attrs[0].name {
          if a.name != name {
            assert a in attrs[1..];
          }
        }
        DistinctCons(attrs[0], rest);
      }
    }
  }

  lemma {:induction false} KeepWhitelistedKeepsDistinct(attrs: seq<Attr>, tag: string, isAttributeWhitelisted: (string, string) -> bool)
    requires DistinctNames(attrs)
    ensures DistinctNames(KeepWhitelisted(attrs, tag, isAttributeWhitelisted))
    decreases |attrs|
  {
    if attrs != [] {
      DistinctTail(attrs);
      KeepWhitelistedKeepsDistinct(attrs[1..], tag, isAttributeWhitelisted);
      var rest := KeepWhitelisted(attrs[1..], tag, isAttributeWhitelisted);
      if Kept(attrs[0], tag, isAttributeWhitelisted) {
        DistinctCons(attrs[0], rest);
        assert KeepWhitelisted(attrs, tag, isAttributeWhitelisted) == [attrs[0]] + rest;
      } else {
        assert KeepWhitelisted(attrs, tag, isAttributeWhitelisted) == rest;
      }
    }
  }

  // ---------------------------------------------------------------------
  // What stripping promises
  // ---------------------------------------------------------------------

  /** After stripping an element, every attribute other than `class` is whitelisted for its lower-cased tag. */
  lemma StripLeavesOnlyWhitelisted(nodeType: int, nodeName: string, attrs: seq<Attr>,
                                   isAttributeWhitelisted: (string, string) -> bool,
                                   isClassWhitelisted: (string, string) -> bool)
    requires nodeType == ELEMENT_NODE
    ensures forall a :: a in Stripped(nodeType, nodeName, attrs, isAttributeWhitelisted, isClassWhitelisted) && a.name != "class" ==>
      isAttributeWhitelisted(ToLowerAscii(nodeName), a.name)
  {
  }

  /** Every whitelisted attribute other than `class` is still there with its value. */
  lemma StripKeepsWhitelisted(nodeType: int, nodeName: string, attrs: seq<Attr>,
                              isAttributeWhitelisted: (string, string) -> bool,
                              isClassWhitelisted: (string, string) -> bool)
    ensures forall a :: a in attrs && a.name != "class" && isAttributeWhitelisted(ToLowerAscii(nodeName), a.name) ==>
      a in Stripped(nodeType, nodeName, attrs, isAttributeWhitelisted, isClassWhitelisted)
  {
  }

  /** No class, or an empty one: the `class` attribute is left as it was. */
  lemma StripLeavesEmptyClass(nodeType: int, nodeName: string, attrs: seq<Attr>,
                              isAttributeWhitelisted: (string, string) -> bool,
                              isClassWhitelisted: (string, string) -> bool)
    requires Lookup(attrs, "class").None? || Lookup(attrs, "class") == Some("")
    ensures Lookup(Stripped(nodeType, nodeName, attrs, isAttributeWhitelisted, isClassWhitelisted), "class") == Lookup(attrs, "class")
  {
    if nodeType == ELEMENT_NODE && attrs != [] {
      LookupKept(attrs, "class", ToLowerAscii(nodeName), isAttributeWhitelisted);
    }
  }

  /**
   * A non-empty class: the new value is its space-separated tokens that are
   * non-empty and whitelisted, in order, joined by single spaces; when no
   * token survives the attribute is gone.
   */
  lemma StripNarrowsClass(nodeType: int, nodeName: string, attrs: seq<Attr>,
                          isAttributeWhitelisted: (string, string) -> bool,
                          isClassWhitelisted: (string, string) -> bool)
    requires nodeType == ELEMENT_NODE
    requires Lookup(attrs, "class").Some? && Lookup(attrs, "class").value != ""
    ensures var newClasses := FilterClasses(Split(Lookup(attrs, "class").value, ' '), ToLowerAscii(nodeName), isClassWhitelisted);
      var r := Stripped(nodeType, nodeName, attrs, isAttributeWhitelisted, isClassWhitelisted);
      && (|newClasses| > 0 ==> Lookup(r, "class") == Some(Join(newClasses, " ")))
      && (|newClasses| == 0 ==> "class" !in Names(r))
  {
    LookupKept(attrs, "class", ToLowerAscii(nodeName), isAttributeWhitelisted);
  }

  /** Stripping never adds an attribute, and every attribute left other than `class` was there with that value. */
  lemma StripNeverAdds(nodeType: int, nodeName: string, attrs: seq<Attr>,
                       isAttributeWhitelisted: (string, string) -> bool,
                       isClassWhitelisted: (string, string) -> bool)
    ensures var r := Stripped(nodeType, nodeName, attrs, isAttributeWhitelisted, isClassWhitelisted);
      && Names(r) <= Names(attrs)
      && (forall a :: a in r && a.name != "class" ==> a in attrs)
  {
    if nodeType == ELEMENT_NODE && attrs != [] {
      var tag := ToLowerAscii(nodeName);
      var kept := KeepWhitelisted(attrs, tag, isAttributeWhitelisted);
      assert Names(kept) <= Names(attrs) by {
        forall x | x in Names(kept) ensures x in Names(attrs) {
          var a :| a in kept && a.name == x;
          assert a in attrs;
        }
      }
      if Lookup(kept, "class").Some? {
        assert "class" in Names(kept);
      }
    }
  }

  /** Stripping keeps the attribute names of an element distinct. */
  lemma StripKeepsDistinct(nodeType: int, nodeName: string, attrs: seq<Attr>,
                           isAttributeWhitelisted: (string, string) -> bool,
                           isClassWhitelisted: (string, string) -> bool)
    requires DistinctNames(attrs)
    ensures DistinctNames(Stripped(nodeType, nodeName, attrs, isAttributeWhitelisted, isClassWhitelisted))
  {
    if nodeType == ELEMENT_NODE && attrs != [] {
      var tag := ToLowerAscii(nodeName);
      var kept := KeepWhitelisted(attrs, tag, isAttributeWhitelisted);
      KeepWhitelistedKeepsDistinct(attrs, tag, isAttributeWhitelisted);
      var oldClasses := Lookup(kept, "class");
      if oldClasses.Some? && oldClasses.value != "" {
        var newClasses := FilterClasses(Split(oldClasses.value, ' '), tag, isClassWhitelisted);
        if |newClasses| > 0 {
          WithAttributeKeepsDistinct(kept, "class", Join(newClasses, " "));
        } else {
          WithoutAttributeKeepsDistinct(kept, "class");
        }
      }
    }
  }

  /** Stripping a stripped element changes nothing. */
  lemma StripIdempotent(nodeType: int, nodeName: string, attrs: seq<Attr>,
                        isAttributeWhitelisted: (string, string) -> bool,
                        isClassWhitelisted: (string, string) -> bool)
    ensures var once := Stripped(nodeType, nodeName, attrs, isAttributeWhitelisted, isClassWhitelisted);
      Stripped(nodeType, nodeName, once, isAttributeWhitelisted, isClassWhitelisted) == once
  {
    var once := Stripped(nodeType, nodeName, attrs, isAttributeWhitelisted, isClassWhitelisted);
    if nodeType == ELEMENT_NODE && attrs != [] && once != [] {
      var tag := ToLowerAscii(nodeName);
      var kept := KeepWhitelisted(attrs, tag, isAttributeWhitelisted);
      KeepAllKept(once, tag, isAttributeWhitelisted);
      var oldClasses := Lookup(kept, "class");
      if oldClasses.Some? && oldClasses.value != "" {
        var newClasses := FilterClasses(Split(oldClasses.value, ' '), tag, isClassWhitelisted);
        if |newClasses| > 0 {
          var joined := Join(newClasses, " ");
          assert Lookup(once, "class") == Some(joined);
          assert newClasses[0] in newClasses;
          JoinNonEmpty(newClasses, " ");
          var tokens := Split(oldClasses.value, ' ');
          forall k | 0 <= k < |newClasses| ensures ' ' !in newClasses[k] {
            assert newClasses[k] in newClasses;
            var m :| 0 <= m < |tokens| && tokens[m] == newClasses[k];
          }
          SplitJoin(newClasses, ' ');
          FilterAllPass(newClasses, tag, isClassWhitelisted);
          WithAttributeTwice(kept, "class", joined);
        } else {
          assert Lookup(once, "class").None?;
        }
      }
    }
  }

  // ---------------------------------------------------------------------
  // Helpers for the properties
  // ---------------------------------------------------------------------

  /** Looking up a name the first pass keeps gives the same answer before and after it. */
  lemma {:induction false} LookupKept(attrs: seq<Attr>, name: string, tag: string, isAttributeWhitelisted: (string, string) -> bool)
    requires name == "class" || isAttributeWhitelisted(tag, name)
    ensures Lookup(KeepWhitelisted(attrs, tag, isAttributeWhitelisted), name) == Lookup(attrs, name)
    decreases |attrs|
  {
    if attrs != [] {
      var first := attrs[0];
      var rest := KeepWhitelisted(attrs[1..], tag, isAttributeWhitelisted);
      var kept := KeepWhitelisted(attrs, tag, isAttributeWhitelisted);
      if first.name == name {
        assert Kept(first, tag, isAttributeWhitelisted);
        assert kept == [first] + rest;
        assert kept[0] == first;
        assert Lookup(kept, name) == Some(first.value);
        assert Lookup(attrs, name) == Some(first.value);
      } else {
        LookupKept(attrs[1..], name, tag, isAttributeWhitelisted);
        if Kept(first, tag, isAttributeWhitelisted) {
          assert kept == [first] + rest;
          assert kept[1..] == rest;
          assert kept[0] == first;
          assert Lookup(kept, name) == Lookup(rest, name);
          assert Lookup(attrs, name) == Lookup(attrs[1..], name);
        } else {
          assert kept == rest;
          assert Lookup(attrs, name) == Lookup(attrs[1..], name);
        }
      }
    }
  }

  /** The first pass leaves a list whose attributes it all keeps unchanged. */
  lemma {:induction false} KeepAllKept(attrs: seq<Attr>, tag: string, isAttributeWhitelisted: (string, string) -> bool)
    requires forall a :: a in attrs ==> Kept(a, tag, isAttributeWhitelisted)
    ensures KeepWhitelisted(attrs, tag, isAttributeWhitelisted) == attrs
    decreases |attrs|
  {
    if attrs != [] {
      assert attrs[0] in attrs;
      KeepAllKept(attrs[1..], tag, isAttributeWhitelisted);
      assert [attrs[0]] + attrs[1..] == attrs;
    }
  }

  /** Filtering tokens that all pass keeps them all. */
  lemma {:induction false} FilterAllPass(tokens: seq<string>, tag: string, isClassWhitelisted: (string, string) -> bool)
    requires forall t :: t in tokens ==> t != "" && isClassWhitelisted(tag, t)
    ensures FilterClasses(tokens, tag, isClassWhitelisted) == tokens
    decreases |tokens|
  {
    if tokens != [] {
      assert tokens[0] in tokens;
      assert forall t :: t in tokens[1..] ==> t in tokens;
      FilterAllPass(tokens[1..], tag, isClassWhitelisted);
      assert [tokens[0]] + tokens[1..] == tokens;
    }
  }

  /** Filtering distributes over concatenation, so the tokens that survive keep their order. */
  lemma {:induction false} FilterClassesConcat(a: seq<string>, b: seq<string>, tag: string, isClassWhitelisted: (string, string) -> bool)
    ensures FilterClasses(a + b, tag, isClassWhitelisted) ==
      FilterClasses(a, tag, isClassWhitelisted) + FilterClasses(b, tag, isClassWhitelisted)
    decreases |a|
  {
    if a == [] {
      assert a + b == b;
    } else {
      assert (a + b)[0] == a[0];
      assert (a + b)[1..] == a[1..] + b;
      FilterClassesConcat(a[1..], b, tag, isClassWhitelisted);
    }
  }

  /** Joining a list whose first part is non-empty gives a non-empty text. */
  lemma {:induction false} JoinNonEmpty(parts: seq<string>, sep: string)
    requires |parts| > 0 && parts[0] != ""
    ensures Join(parts, sep) != ""
  {
    if |parts| > 1 {
      assert |Join(parts, sep)| >= |parts[0]|;
    }
  }

  /** Setting the same value twice is setting it once. */
  lemma {:induction false} WithAttributeTwice(attrs: seq<Attr>, name: string, value: string)
    ensures WithAttribute(WithAttribute(attrs, name, value), name, value) == WithAttribute(attrs, name, value)
    decreases |attrs|
  {
    if attrs != [] && attrs[0].name != name {
      WithAttributeTwice(attrs[1..], name, value);
    }
  }
}
