/**
 * The block serializer: in-memory blocks to post text, each block's markup
 * wrapped in `<!-- wp:name {json} -->` comment delimiters.
 *
 * The block registry, `JSON.stringify`, the markup beautifier and the
 * rendering of a block type's `save` are collaborators held abstract in
 * `Env` and `BlockType`.
 */
module Serializer {
  import opened Wrappers
  import opened Strings

  // ---------------------------------------------------------------------
  // Values, blocks, block types and the collaborators
  // ---------------------------------------------------------------------

  /** An attribute value, as far as serialization inspects it. */
  datatype Value =
    | Undefined
    | Null
    | Bool(b: bool)
    | Number(n: int)
    | Str(s: string)
    // An object or array: `===` compares `id`, its identity; `text` is what
    // `String(v)` gives, `[object Object]` for a plain object and the
    // comma-joined elements for an array.
    | Object(id: nat, text: string)

  /** JavaScript truthiness. */
  predicate Truthy(v: Value) {
    match v
    case Undefined => false
    case Null => false
    case Bool(b) => b
    case Number(n) => n != 0
    case Str(s) => s != ""
    case Object(_, _) => true
  }

  /** The text a template literal `${ v }` inserts. */
  function TemplateString(v: Value): (r: string) {
    match v
    case Undefined => "undefined"
    case Null => "null"
    case Bool(b) => if b then "true" else "false"
    case Number(n) => IntToDecimal(n)
    case Str(s) => s
    case Object(_, text) => text
  }

  /** A block's attribute bag. */
  type Attributes = map<string, Value>

  /** `attributes[ key ]`: `undefined` for a missing key. */
  function AttributeValue(attributes: Attributes, key: string): (r: Value) {
    if key in attributes then attributes[key] else Undefined
  }

  /** One entry of a block type's attribute schema: whether it declares a `source`, and its `default` if it has one. */
  datatype AttributeSchema = AttributeSchema(hasSource: bool, default: Option<Value>)

  datatype SchemaEntry = SchemaEntry(key: string, schema: AttributeSchema)

  predicate DistinctKeys(entries: seq<SchemaEntry>) {
    forall i, j :: 0 <= i < j < |entries| ==> entries[i].key != entries[j].key
  }

  /** `blockType.attributes`: an object, so its keys are distinct; iteration follows insertion order. */
  type Schema = entries: seq<SchemaEntry> | DistinctKeys(entries) witness []

  /** What calling the block type's save implementation gives: markup, or a thrown error. */
  datatype SaveOutcome = Saved(markup: string) | Threw

  /**
   * A registered block type. `save` stands for `getSaveContent` with this
   * type: the save render, the `getSaveContent.extraProps` filters and the
   * rendering to a string.
   */
  datatype BlockType = BlockType(attributes: Schema, save: Attributes -> SaveOutcome)

  /** A block; an absent `originalContent` behaves as `""` on every path and is written so. */
  datatype Block = Block(name: string, attributes: Attributes, originalContent: string, isValid: bool)

  /** One key of a plain object built by the serializer, in insertion order. */
  datatype Property = Property(key: string, value: Value)

  /**
   * The collaborators: `getBlockType`, `getUnknownTypeHandlerName` (unset
   * until a handler is registered), `JSON.stringify` on an attribute object
   * and the markup beautifier.
   */
  datatype Env = Env(
    getBlockType: string -> Option<BlockType>,
    unknownTypeHandlerName: Option<string>,
    stringify: seq<Property> -> string,
    beautify: string -> string)

  /** The one error that escapes serialization: a block whose type is not registered. */
  datatype SerializeError = UnregisteredBlockType(name: string)

  // ---------------------------------------------------------------------
  // Names and class names
  // ---------------------------------------------------------------------

  /** `friendlyBlockName`: the first `/` becomes `-`, then a leading `core-` is dropped. */
  function FriendlyBlockName(blockName: string): (r: string) {
    var replaced := ReplaceFirst(blockName, '/', '-');
    if StartsWith(replaced, "core-") then replaced[5..] else replaced
  }

  /** `getBlockDefaultClassname`. */
  function GetBlockDefaultClassname(blockName: string): (r: string) {
    "wp-block-" + FriendlyBlockName(blockName)
  }

  /** `ns-rest` starts with `core-` exactly when `ns` is `core` or itself starts with `core-`. */
  lemma HyphenatedStartsWithCore(ns: string, rest: string)
    ensures StartsWith(ns + "-" + rest, "core-") <==> ns == "core" || StartsWith(ns, "core-")
  {
    var joined := ns + "-" + rest;
    if |ns| >= 5 {
      assert joined[..5] == ns[..5];
    } else if |ns| == 4 {
      assert joined[..4] == ns;
    } else if |joined| >= 5 {
      assert joined[|ns|] == '-';
      assert "core-"[|ns|] != '-';
    }
  }

  /**
   * For a namespaced name `ns/local` the class is `wp-block-` followed by
   * `local` for the `core` namespace, `ns`'s part after `core-` and `-local`
   * for a `core-` namespace, and `ns-local` otherwise; slashes inside `local`
   * are kept.
   */
  lemma DefaultClassnameOfNamespaced(ns: string, local: string)
    requires '/' !in ns
    ensures GetBlockDefaultClassname(ns + "/" + local) ==
      "wp-block-" + (if ns == "core" then local
                     else if StartsWith(ns, "core-") then ns[5..] + "-" + local
                     else ns + "-" + local)
  {
    var name := ns + "/" + local;
    assert name[..|ns|] == ns;
    assert name[|ns| + 1..] == local;
    ReplaceFirstAt(name, '/', '-', |ns|);
    var replaced := ns + "-" + local;
    assert ReplaceFirst(name, '/', '-') == replaced;
    HyphenatedStartsWithCore(ns, local);
    if ns == "core" {
      assert replaced[5..] == local;
    } else if StartsWith(ns, "core-") {
      assert replaced[5..] == ns[5..] + "-" + local;
    }
  }

  /** A name without a slash only loses a leading `core-`. */
  lemma DefaultClassnameWithoutSlash(name: string)
    requires '/' !in name
    ensures GetBlockDefaultClassname(name) == "wp-block-" + (if StartsWith(name, "core-") then name[5..] else name)
  {
  }

  /** A `core/` block's class is `wp-block-` and its local name: `core/quote` has `wp-block-quote`. */
  lemma CoreClassname(local: string)
    ensures GetBlockDefaultClassname("core/" + local) == "wp-block-" + local
  {
    var ns := "core";
    assert "core/" + local == ns + "/" + local;
    DefaultClassnameOfNamespaced(ns, local);
  }

  /**
   * A block in a `core-SUB` namespace has the class `wp-block-SUB-` and its
   * local name: `core-embed/twitter` has `wp-block-embed-twitter`.
   */
  lemma CoreNamespaceClassname(sub: string, local: string)
    requires '/' !in sub
    ensures GetBlockDefaultClassname("core-" + sub + "/" + local) == "wp-block-" + sub + "-" + local
  {
    var prefix := "core-";
    var ns := prefix + sub;
    assert '/' !in prefix;
    assert '/' !in ns;
    assert StartsWith(ns, prefix) && ns[5..] == sub by {
      assert ns[..5] == prefix;
    }
    DefaultClassnameOfNamespaced(ns, local);
    assert "wp-block-" + (sub + "-" + local) == "wp-block-" + sub + "-" + local;
  }

  // ---------------------------------------------------------------------
  // Random anchors: `drawn` is the integer lodash `random` returned
  // ---------------------------------------------------------------------

  /**
   * `randomBase36String` as written: `random(0, Math.pow(36, 7), false)`
   * includes its upper bound, so `drawn` ranges over 36^7 + 1 integers.
   */
  function RandomBase36StringAsWritten(drawn: nat): (r: string)
    requires drawn <= Pow(36, 7)
    ensures 1 <= |r| <= 8
  {
    NatToStringLength(drawn, 36, 8);
    assert Pow(36, 8) == 36 * Pow(36, 7);
    NatToString(drawn, 36)
  }

  /** The upper bound itself is a possible draw, and its base-36 text has eight characters, not at most seven. */
  lemma RandomBase36StringAsWrittenReachesEightChars()
    ensures |RandomBase36StringAsWritten(Pow(36, 7))| == 8
  {
    NatToStringLength(Pow(36, 7), 36, 7);
  }

  /** `randomBase36String` drawing from [0, 36^7): exactly 36^7 strings of at most seven characters. */
  function RandomBase36String(drawn: nat): (r: string)
    requires drawn < Pow(36, 7)
    ensures 1 <= |r| <= 7
  {
    NatToStringLength(drawn, 36, 7);
    NatToString(drawn, 36)
  }

  /** `getBlockRandomAnchor`: the default class name, a hyphen and a token of one to seven characters. */
  function GetBlockRandomAnchor(blockName: string, drawn: nat): (r: string)
    requires drawn < Pow(36, 7)
    ensures StartsWith(r, GetBlockDefaultClassname(blockName) + "-")
    ensures |GetBlockDefaultClassname(blockName)| + 2 <= |r| <= |GetBlockDefaultClassname(blockName)| + 8
  {
    var r := "wp-block-" + FriendlyBlockName(blockName) + "-" + RandomBase36String(drawn);
    assert r[..|GetBlockDefaultClassname(blockName) + "-"|] == GetBlockDefaultClassname(blockName) + "-";
    r
  }

  // ---------------------------------------------------------------------
  // Comment attributes
  // ---------------------------------------------------------------------

  /** Whether an attribute goes into the comment delimiter: defined, without a source, and not its default. */
  predicate IsCommentAttribute(schema: AttributeSchema, value: Value) {
    && value != Undefined
    && !schema.hasSource
    && !(schema.default.Some? && schema.default.value == value)
  }

  /** The schema declared under `key` (keys are distinct, so which end the search starts from does not matter). */
  function SchemaLookup(entries: seq<SchemaEntry>, key: string): (r: Option<AttributeSchema>)
    ensures r.Some? <==> exists i :: 0 <= i < |entries| && entries[i].key == key
    ensures r.Some? ==> SchemaEntry(key, r.value) in entries
    decreases |entries|
  {
    if entries == [] then None
    else if entries[|entries| - 1].key == key then Some(entries[|entries| - 1].schema)
    else SchemaLookup(entries[..|entries| - 1], key)
  }

  /** The attributes persisted in the comment delimiter, in schema order. */
  function CommentAttributes(all: Attributes, entries: seq<SchemaEntry>): (r: seq<Property>)
    ensures |r| <= |entries|
    ensures forall i :: 0 <= i < |r| ==> r[i].value == AttributeValue(all, r[i].key)
    ensures forall i :: 0 <= i < |r| ==> SchemaLookup(entries, r[i].key).Some?
    decreases |entries|
  {
    if entries == [] then []
    else
      var init, last := entries[..|entries| - 1], entries[|entries| - 1];
      var value := AttributeValue(all, last.key);
      CommentAttributes(all, init) + (if IsCommentAttribute(last.schema, value) then [Property(last.key, value)] else [])
  }

  /**
   * A key and value are in the comment attributes exactly when the schema
   * declares the key, the block's value for it is defined, the schema gives
   * it no source, the value is not the schema's default, and the value is the
   * block's own.
   */
  lemma {:induction false} CommentAttributesSelection(all: Attributes, entries: seq<SchemaEntry>, key: string, value: Value)
    requires DistinctKeys(entries)
    ensures Property(key, value) in CommentAttributes(all, entries) <==>
      && SchemaLookup(entries, key).Some?
      && IsCommentAttribute(SchemaLookup(entries, key).value, AttributeValue(all, key))
      && value == AttributeValue(all, key)
    decreases |entries|
  {
    if entries != [] {
      var init, last := entries[..|entries| - 1], entries[|entries| - 1];
      assert DistinctKeys(init);
      CommentAttributesSelection(all, init, key, value);
      if last.key == key {
        assert forall i :: 0 <= i < |init| ==> init[i].key != key by {
          forall i | 0 <= i < |init| ensures init[i].key != key {
            assert init[i] == entries[i];
          }
        }
        assert SchemaLookup(init, key).None?;
      }
    }
  }

  predicate DistinctPropertyKeys(props: seq<Property>) {
    forall i, j :: 0 <= i < j < |props| ==> props[i].key != props[j].key
  }

  /** The comment attributes form an object: no key appears twice. */
  lemma {:induction false} CommentAttributesKeysDistinct(all: Attributes, entries: seq<SchemaEntry>)
    requires DistinctKeys(entries)
    ensures DistinctPropertyKeys(CommentAttributes(all, entries))
    decreases |entries|
  {
    if entries != [] {
      var init, last := entries[..|entries| - 1], entries[|entries| - 1];
      assert DistinctKeys(init);
      CommentAttributesKeysDistinct(all, init);
      var prefix := CommentAttributes(all, init);
      forall i | 0 <= i < |prefix| ensures prefix[i].key != last.key {
        assert SchemaLookup(init, prefix[i].key).Some?;
        var j :| 0 <= j < |init| && init[j].key == prefix[i].key;
        assert init[j] == entries[j];
      }
      var value := AttributeValue(all, last.key);
      if IsCommentAttribute(last.schema, value) {
        var r := prefix + [Property(last.key, value)];
        assert CommentAttributes(all, entries) == r;
        forall i, j | 0 <= i < j < |r| ensures r[i].key != r[j].key {
          if j < |prefix| {
            assert r[i] == prefix[i] && r[j] == prefix[j];
          } else {
            assert r[i] == prefix[i] && r[j].key == last.key;
          }
        }
        assert DistinctPropertyKeys(r);
      } else {
        assert CommentAttributes(all, entries) == prefix;
      }
    }
  }

  /** `getCommentAttributes`: one pass over the schema, adding each persisted attribute to the result object. */
  method GetCommentAttributes(allAttributes: Attributes, blockType: BlockType) returns (result: seq<Property>)
    ensures result == CommentAttributes(allAttributes, blockType.attributes)
  {
    var entries := blockType.attributes;
    result := [];
    var i := 0;
    while i < |entries|
      invariant 0 <= i <= |entries|
      invariant result == CommentAttributes(allAttributes, entries[..i])
    {
      var key, attributeSchema := entries[i].key, entries[i].schema;
      var value := AttributeValue(allAttributes, key);
      assert entries[..i + 1][..i] == entries[..i];
      if value == Undefined {
        // Ignore undefined values
      } else if attributeSchema.hasSource {
        // Attributes with a source are matched from the content
      } else if attributeSchema.default.Some? && attributeSchema.default.value == value {
        // Ignore the default value
      } else {
        result := result + [Property(key, value)];
      }
      i := i + 1;
    }
    assert entries[..i] == entries;
  }

  // ---------------------------------------------------------------------
  // Escaping the JSON payload
  // ---------------------------------------------------------------------

  const EscapedDoubleHyphen: string := "\\u002d\\u002d"
  const EscapedLessThan: string := "\\u003c"
  const EscapedGreaterThan: string := "\\u003e"
  const EscapedAmpersand: string := "\\u0026"

  /** The chain of four global replacements, in the source's order. */
  function EscapeCommentJson(json: string): (r: string) {
    ReplaceAll(ReplaceAll(ReplaceAll(ReplaceAll(json, "--", EscapedDoubleHyphen), "<", EscapedLessThan), ">", EscapedGreaterThan), "&", EscapedAmpersand)
  }

  /**
   * Reference definition: one left-to-right pass that escapes each `--`
   * (without overlap), `<`, `>` and `&` and copies every other character.
   */
  function EscapeInOnePass(s: string): (r: string)
    decreases |s|
  {
    if s == "" then ""
    else if |s| >= 2 && s[0] == '-' && s[1] == '-' then EscapedDoubleHyphen + EscapeInOnePass(s[2..])
    else if s[0] == '<' then EscapedLessThan + EscapeInOnePass(s[1..])
    else if s[0] == '>' then EscapedGreaterThan + EscapeInOnePass(s[1..])
    else if s[0] == '&' then EscapedAmpersand + EscapeInOnePass(s[1..])
    else [s[0]] + EscapeInOnePass(s[1..])
  }

  /** The last three replacements of the chain. */
  function EscapeChars(t: string): (r: string) {
    ReplaceAll(ReplaceAll(ReplaceAll(t, ['<'], EscapedLessThan), ['>'], EscapedGreaterThan), ['&'], EscapedAmpersand)
  }

  lemma EscapeCharsConcat(a: string, b: string)
    ensures EscapeChars(a + b) == EscapeChars(a) + EscapeChars(b)
  {
    ReplaceCharConcat(a, b, '<', EscapedLessThan);
    var a1, b1 := ReplaceAll(a, ['<'], EscapedLessThan), ReplaceAll(b, ['<'], EscapedLessThan);
    ReplaceCharConcat(a1, b1, '>', EscapedGreaterThan);
    var a2, b2 := ReplaceAll(a1, ['>'], EscapedGreaterThan), ReplaceAll(b1, ['>'], EscapedGreaterThan);
    ReplaceCharConcat(a2, b2, '&', EscapedAmpersand);
  }

  /** Text without `<`, `>` or `&` passes the last three replacements unchanged. */
  lemma EscapeCharsAbsent(t: string)
    requires '<' !in t && '>' !in t && '&' !in t
    ensures EscapeChars(t) == t
  {
    ReplaceCharAbsent(t, '<', EscapedLessThan);
    ReplaceCharAbsent(t, '>', EscapedGreaterThan);
    ReplaceCharAbsent(t, '&', EscapedAmpersand);
  }

  lemma EscapeCharsOfLessThan()
    ensures EscapeChars("<") == EscapedLessThan
  {
    assert "<" == ['<'] && ['<'][1..] == "";
    assert ReplaceAll("<", ['<'], EscapedLessThan) == EscapedLessThan;
    ReplaceCharAbsent(EscapedLessThan, '>', EscapedGreaterThan);
    ReplaceCharAbsent(EscapedLessThan, '&', EscapedAmpersand);
  }

  lemma EscapeCharsOfGreaterThan()
    ensures EscapeChars(">") == EscapedGreaterThan
  {
    assert ">" == ['>'] && ['>'][1..] == "";
    ReplaceCharAbsent(">", '<', EscapedLessThan);
    assert ReplaceAll(">", ['>'], EscapedGreaterThan) == EscapedGreaterThan;
    ReplaceCharAbsent(EscapedGreaterThan, '&', EscapedAmpersand);
  }

  lemma EscapeCharsOfAmpersand()
    ensures EscapeChars("&") == EscapedAmpersand
  {
    assert "&" == ['&'] && ['&'][1..] == "";
    ReplaceCharAbsent("&", '<', EscapedLessThan);
    ReplaceCharAbsent("&", '>', EscapedGreaterThan);
    assert ReplaceAll("&", ['&'], EscapedAmpersand) == EscapedAmpersand;
  }

  /** The last three replacements on one character: its escape, if it has one. */
  lemma EscapeCharsOfChar(c: char)
    ensures EscapeChars([c]) ==
      if c == '<' then EscapedLessThan
      else if c == '>' then EscapedGreaterThan
      else if c == '&' then EscapedAmpersand
      else [c]
  {
    if c == '<' {
      assert [c] == "<";
      EscapeCharsOfLessThan();
    } else if c == '>' {
      assert [c] == ">";
      EscapeCharsOfGreaterThan();
    } else if c == '&' {
      assert [c] == "&";
      EscapeCharsOfAmpersand();
    } else {
      EscapeCharsAbsent([c]);
    }
  }

  /** The four chained replacements are the one-pass escaping. */
  lemma {:induction false} EscapeCommentJsonInOnePass(s: string)
    ensures EscapeCommentJson(s) == EscapeInOnePass(s)
    decreases |s|
  {
    assert "--" == ['-', '-'] && "<" == ['<'] && ">" == ['>'] && "&" == ['&'];
    var hyphens := ReplaceAll(s, "--", EscapedDoubleHyphen);
    assert EscapeCommentJson(s) == EscapeChars(hyphens);
    if s != "" {
      if |s| >= 2 && s[0] == '-' && s[1] == '-' {
        assert s[..2] == "--";
        var rest := ReplaceAll(s[2..], "--", EscapedDoubleHyphen);
        assert hyphens == EscapedDoubleHyphen + rest;
        EscapeCharsConcat(EscapedDoubleHyphen, rest);
        EscapeCharsAbsent(EscapedDoubleHyphen);
        EscapeCommentJsonInOnePass(s[2..]);
        assert EscapeCommentJson(s[2..]) == EscapeChars(rest);
      } else {
        assert !StartsWith(s, "--");
        var rest := ReplaceAll(s[1..], "--", EscapedDoubleHyphen);
        assert hyphens == [s[0]] + rest;
        EscapeCharsConcat([s[0]], rest);
        EscapeCharsOfChar(s[0]);
        EscapeCommentJsonInOnePass(s[1..]);
        assert EscapeCommentJson(s[1..]) == EscapeChars(rest);
      }
    }
  }

  /** Text that cannot end an HTML comment early: no `<`, no `>` and no `--`. */
  predicate SafeCommentText(t: string) {
    && (forall i :: 0 <= i < |t| ==> t[i] != '<' && t[i] != '>')
    && (forall i :: 0 <= i < |t| - 1 ==> !(t[i] == '-' && t[i + 1] == '-'))
  }

  /** Safe texts stay safe when concatenated, unless a `-` meets a `-` at the seam. */
  lemma SafeConcat(a: string, b: string)
    requires SafeCommentText(a) && SafeCommentText(b)
    requires a == "" || b == "" || a[|a| - 1] != '-' || b[0] != '-'
    ensures SafeCommentText(a + b)
  {
    var t := a + b;
    forall i | 0 <= i < |t| - 1 ensures !(t[i] == '-' && t[i + 1] == '-') {
      if i + 1 < |a| {
        assert t[i] == a[i] && t[i + 1] == a[i + 1];
      } else if i >= |a| {
        assert t[i] == b[i - |a|] && t[i + 1] == b[i + 1 - |a|];
      } else {
        assert t[i] == a[|a| - 1] && t[i + 1] == b[0];
      }
    }
  }

  /** A suffix of safe text is safe. */
  lemma SafeSuffix(t: string, k: nat)
    requires SafeCommentText(t) && k <= |t|
    ensures SafeCommentText(t[k..])
  {
    var s := t[k..];
    forall i | 0 <= i < |s| - 1 ensures !(s[i] == '-' && s[i + 1] == '-') {
      assert s[i] == t[k + i] && s[i + 1] == t[k + i + 1];
    }
  }

  /** The escaped text has no `<`, `>`, `&` or `--`, and starts with `-` only where the input starts with a lone `-`. */
  lemma {:induction false} EscapeInOnePassIsSafe(s: string)
    ensures SafeCommentText(EscapeInOnePass(s)) && '&' !in EscapeInOnePass(s)
    ensures EscapeInOnePass(s) != "" && EscapeInOnePass(s)[0] == '-' ==> s[0] == '-' && !(|s| >= 2 && s[1] == '-')
    decreases |s|
  {
    if s != "" {
      if |s| >= 2 && s[0] == '-' && s[1] == '-' {
        EscapeInOnePassIsSafe(s[2..]);
        SafeConcat(EscapedDoubleHyphen, EscapeInOnePass(s[2..]));
      } else {
        var head := if s[0] == '<' then EscapedLessThan
          else if s[0] == '>' then EscapedGreaterThan
          else if s[0] == '&' then EscapedAmpersand
          else [s[0]];
        assert EscapeInOnePass(s) == head + EscapeInOnePass(s[1..]);
        EscapeInOnePassIsSafe(s[1..]);
        SafeConcat(head, EscapeInOnePass(s[1..]));
      }
    }
  }

  /** Undoes the four escapes, reading left to right. */
  function UnescapeCommentJson(t: string): (r: string)
    decreases |t|
  {
    if t == "" then ""
    else if StartsWith(t, EscapedDoubleHyphen) then "--" + UnescapeCommentJson(t[|EscapedDoubleHyphen|..])
    else if StartsWith(t, EscapedLessThan) then "<" + UnescapeCommentJson(t[|EscapedLessThan|..])
    else if StartsWith(t, EscapedGreaterThan) then ">" + UnescapeCommentJson(t[|EscapedGreaterThan|..])
    else if StartsWith(t, EscapedAmpersand) then "&" + UnescapeCommentJson(t[|EscapedAmpersand|..])
    else [t[0]] + UnescapeCommentJson(t[1..])
  }

  lemma UnescapeAfterDoubleHyphen(x: string)
    ensures UnescapeCommentJson(EscapedDoubleHyphen + x) == "--" + UnescapeCommentJson(x)
  {
    var t := EscapedDoubleHyphen + x;
    assert t[..|EscapedDoubleHyphen|] == EscapedDoubleHyphen;
    assert t[|EscapedDoubleHyphen|..] == x;
  }

  lemma UnescapeAfterLessThan(x: string)
    ensures UnescapeCommentJson(EscapedLessThan + x) == "<" + UnescapeCommentJson(x)
  {
    var t := EscapedLessThan + x;
    assert t[4] == '3';
    assert !StartsWith(t, EscapedDoubleHyphen);
    assert t[..|EscapedLessThan|] == EscapedLessThan;
    assert t[|EscapedLessThan|..] == x;
  }

  lemma UnescapeAfterGreaterThan(x: string)
    ensures UnescapeCommentJson(EscapedGreaterThan + x) == ">" + UnescapeCommentJson(x)
  {
    var t := EscapedGreaterThan + x;
    assert t[4] == '3' && t[5] == 'e';
    assert !StartsWith(t, EscapedDoubleHyphen);
    assert !StartsWith(t, EscapedLessThan);
    assert t[..|EscapedGreaterThan|] == EscapedGreaterThan;
    assert t[|EscapedGreaterThan|..] == x;
  }

  lemma UnescapeAfterAmpersand(x: string)
    ensures UnescapeCommentJson(EscapedAmpersand + x) == "&" + UnescapeCommentJson(x)
  {
    var t := EscapedAmpersand + x;
    assert t[4] == '2' && t[5] == '6';
    assert !StartsWith(t, EscapedDoubleHyphen);
    assert !StartsWith(t, EscapedLessThan);
    assert !StartsWith(t, EscapedGreaterThan);
    assert t[..|EscapedAmpersand|] == EscapedAmpersand;
    assert t[|EscapedAmpersand|..] == x;
  }

  /** Every escape starts with a backslash and a `u`. */
  predicate NoUnicodeEscape(s: string) {
    forall i :: 0 <= i < |s| - 1 ==> !(s[i] == '\\' && s[i + 1] == 'u')
  }

  /** The escaped text starts with a backslash or with the input's own first character. */
  lemma EscapeInOnePassHead(s: string)
    requires s != ""
    ensures EscapeInOnePass(s) != "" && (EscapeInOnePass(s)[0] == '\\' || EscapeInOnePass(s)[0] == s[0])
  {
  }

  /** A character that does not begin a backslash-`u` pair is copied. */
  lemma UnescapeAfterChar(c: char, x: string)
    requires c != '\\' || x == "" || x[0] != 'u'
    ensures UnescapeCommentJson([c] + x) == [c] + UnescapeCommentJson(x)
  {
    var t := [c] + x;
    assert t[0] == c;
    assert t[1..] == x;
    assert EscapedDoubleHyphen[0] == '\\' && EscapedLessThan[0] == '\\';
    assert EscapedGreaterThan[0] == '\\' && EscapedAmpersand[0] == '\\';
    assert EscapedDoubleHyphen[1] == 'u' && EscapedLessThan[1] == 'u';
    assert EscapedGreaterThan[1] == 'u' && EscapedAmpersand[1] == 'u';
    assert !StartsWith(t, EscapedDoubleHyphen) && !StartsWith(t, EscapedLessThan);
    assert !StartsWith(t, EscapedGreaterThan) && !StartsWith(t, EscapedAmpersand);
  }

  /** Unescaping gives back any text with no backslash-`u` pair of its own. */
  lemma {:induction false} UnescapeEscape(s: string)
    requires NoUnicodeEscape(s)
    ensures UnescapeCommentJson(EscapeInOnePass(s)) == s
    decreases |s|
  {
    if s != "" {
      if |s| >= 2 && s[0] == '-' && s[1] == '-' {
        assert NoUnicodeEscape(s[2..]) by {
          forall i | 0 <= i < |s[2..]| - 1 ensures !(s[2..][i] == '\\' && s[2..][i + 1] == 'u') {
            assert s[2..][i] == s[i + 2] && s[2..][i + 1] == s[i + 3];
          }
        }
        UnescapeEscape(s[2..]);
        UnescapeAfterDoubleHyphen(EscapeInOnePass(s[2..]));
        assert s == "--" + s[2..];
      } else {
        var x := EscapeInOnePass(s[1..]);
        assert NoUnicodeEscape(s[1..]) by {
          forall i | 0 <= i < |s[1..]| - 1 ensures !(s[1..][i] == '\\' && s[1..][i + 1] == 'u') {
            assert s[1..][i] == s[i + 1] && s[1..][i + 1] == s[i + 2];
          }
        }
        UnescapeEscape(s[1..]);
        assert s == [s[0]] + s[1..];
        if s[0] == '<' {
          UnescapeAfterLessThan(x);
        } else if s[0] == '>' {
          UnescapeAfterGreaterThan(x);
        } else if s[0] == '&' {
          UnescapeAfterAmpersand(x);
        } else {
          if s[0] == '\\' && |s| >= 2 {
            EscapeInOnePassHead(s[1..]);
            assert s[1] != 'u';
          }
          UnescapeAfterChar(s[0], x);
        }
      }
    }
  }

  /** `serializeAttributes`: the JSON text, escaped so that it cannot break the comment it is placed in. */
  function SerializeAttributes(stringify: seq<Property> -> string, attrs: seq<Property>): (r: string)
    ensures r == EscapeInOnePass(stringify(attrs))
    ensures SafeCommentText(r) && '&' !in r
  {
    EscapeCommentJsonInOnePass(stringify(attrs));
    EscapeInOnePassIsSafe(stringify(attrs));
    EscapeCommentJson(stringify(attrs))
  }

  /** Reversing the escapes gives back the JSON text, when that text has no backslash-`u` pair. */
  lemma SerializeAttributesReversible(stringify: seq<Property> -> string, attrs: seq<Property>)
    requires NoUnicodeEscape(stringify(attrs))
    ensures UnescapeCommentJson(SerializeAttributes(stringify, attrs)) == stringify(attrs)
  {
    UnescapeEscape(stringify(attrs));
  }

  // ---------------------------------------------------------------------
  // Block content
  // ---------------------------------------------------------------------

  /** `getSaveContent`: destructuring an undefined block type throws. */
  function GetSaveContent(blockType: Option<BlockType>, attributes: Attributes): (r: SaveOutcome) {
    match blockType
    case None => Threw
    case Some(t) => t.save(attributes)
  }

  /** `saveContent` after the `try`/`catch`: the saved markup, or the original content when invalid or when saving throws. */
  function RawBlockContent(env: Env, block: Block): (r: string) {
    if !block.isValid then block.originalContent
    else match GetSaveContent(env.getBlockType(block.name), block.attributes)
      case Saved(markup) => markup
      case Threw => block.originalContent
  }

  /** The final step of `getBlockContent`: beautify, except for the unknown-type handler and for empty content. */
  function FinishContent(env: Env, blockName: string, saveContent: string): (r: string) {
    if env.unknownTypeHandlerName == Some(blockName) || saveContent == "" then saveContent
    else env.beautify(saveContent)
  }

  /** What `getBlockContent` returns. */
  function BlockContent(env: Env, block: Block): (r: string) {
    FinishContent(env, block.name, RawBlockContent(env, block))
  }

  /**
   * No content is lost: an invalid block, or one whose save throws (an
   * unregistered type among them), gets its original content; otherwise the
   * saved markup. Unknown-type and empty content is never beautified.
   */
  lemma BlockContentFallback(env: Env, block: Block)
    ensures !block.isValid ==> BlockContent(env, block) == FinishContent(env, block.name, block.originalContent)
    ensures block.isValid && GetSaveContent(env.getBlockType(block.name), block.attributes).Threw? ==>
      BlockContent(env, block) == FinishContent(env, block.name, block.originalContent)
    ensures block.isValid && GetSaveContent(env.getBlockType(block.name), block.attributes).Saved? ==>
      BlockContent(env, block) == FinishContent(env, block.name, GetSaveContent(env.getBlockType(block.name), block.attributes).markup)
    ensures env.unknownTypeHandlerName == Some(block.name) ==> BlockContent(env, block) == RawBlockContent(env, block)
    ensures RawBlockContent(env, block) == "" ==> BlockContent(env, block) == ""
    ensures env.unknownTypeHandlerName != Some(block.name) && RawBlockContent(env, block) != "" ==>
      BlockContent(env, block) == env.beautify(RawBlockContent(env, block))
  {
  }

  /** The content of an invalid block does not depend on the block types registered, nor on their save implementations. */
  lemma InvalidBlockIgnoresSave(env: Env, block: Block, otherTypes: string -> Option<BlockType>)
    requires !block.isValid
    ensures BlockContent(env.(getBlockType := otherTypes), block) == BlockContent(env, block)
  {
  }

  /** `getBlockContent`: start from the original content and replace it by the saved markup when saving succeeds. */
  method GetBlockContent(env: Env, block: Block) returns (content: string)
    ensures content == BlockContent(env, block)
  {
    var blockType := env.getBlockType(block.name);
    var saveContent := block.originalContent;
    if block.isValid {
      var outcome := GetSaveContent(blockType, block.attributes);
      if outcome.Saved? {
        saveContent := outcome.markup;
      }
    }
    if env.unknownTypeHandlerName == Some(block.name) || saveContent == "" {
      content := saveContent;
    } else {
      content := env.beautify(saveContent);
    }
  }

  // ---------------------------------------------------------------------
  // Comment delimiters
  // ---------------------------------------------------------------------

  /** The name in the delimiter: the raw name without a leading `core/`. */
  function DelimiterName(rawBlockName: string): (r: string)
    ensures StartsWith(rawBlockName, "core/") ==> rawBlockName == "core/" + r
    ensures !StartsWith(rawBlockName, "core/") ==> r == rawBlockName
  {
    if StartsWith(rawBlockName, "core/") then rawBlockName[5..] else rawBlockName
  }

  /** The attribute part of the opening delimiter: empty for no attributes, else the escaped JSON and one space. */
  function AttributeSegment(stringify: seq<Property> -> string, attributes: seq<Property>): (r: string) {
    if attributes == [] then "" else SerializeAttributes(stringify, attributes) + " "
  }

  /** `getCommentDelimitedContent`. */
  function GetCommentDelimitedContent(stringify: seq<Property> -> string, rawBlockName: string,
                                      attributes: seq<Property>, content: string): (r: string)
  {
    var serializedAttributes := AttributeSegment(stringify, attributes);
    var blockName := DelimiterName(rawBlockName);
    if content == "" then
      "<!-- wp:" + blockName + " " + serializedAttributes + "/-->"
    else
      "<!-- wp:" + blockName + " " + serializedAttributes + "-->\n" + content + "\n<!-- /wp:" + blockName + " -->"
  }

  /** The text of an HTML comment that nothing inside can end early, open a new one or turn into `--->`. */
  predicate IsCommentBody(body: string) {
    SafeCommentText(body) && body != "" && body[0] != '-' && body[|body| - 1] != '-'
  }

  function Comment(body: string): (r: string) {
    "<!--" + body + "-->"
  }

  /** The three comment bodies of the delimiters are well formed when the block name is safe comment text. */
  lemma DelimiterBodiesAreSafe(stringify: seq<Property> -> string, rawBlockName: string, attributes: seq<Property>)
    requires SafeCommentText(rawBlockName)
    ensures var name := DelimiterName(rawBlockName);
      var segment := AttributeSegment(stringify, attributes);
      && IsCommentBody(" wp:" + name + " " + segment + "/")
      && IsCommentBody(" wp:" + name + " " + segment)
      && IsCommentBody(" /wp:" + name + " ")
  {
    var name := DelimiterName(rawBlockName);
    var segment := AttributeSegment(stringify, attributes);
    if StartsWith(rawBlockName, "core/") {
      SafeSuffix(rawBlockName, 5);
    }
    assert SafeCommentText(" ") && SafeCommentText(" wp:") && SafeCommentText(" /wp:") && SafeCommentText("/");
    if attributes != [] {
      SafeConcat(SerializeAttributes(stringify, attributes), " ");
    }
    var open := " wp:" + name + " ";
    SafeConcat(" wp:", name);
    SafeConcat(" wp:" + name, " ");
    assert open[|open| - 1] == ' ';
    SafeConcat(open, segment);
    assert (open + segment)[|open + segment| - 1] == ' ' by {
      if attributes == [] {
        assert open + segment == open;
      } else {
        assert segment[|segment| - 1] == ' ';
      }
    }
    SafeConcat(open + segment, "/");
    SafeConcat(" /wp:", name);
    SafeConcat(" /wp:" + name, " ");
  }

  /** With empty content, the delimited form is one self-closing comment. */
  lemma SelfClosingAsComment(stringify: seq<Property> -> string, rawBlockName: string, attributes: seq<Property>)
    ensures GetCommentDelimitedContent(stringify, rawBlockName, attributes, "") ==
      Comment(" wp:" + DelimiterName(rawBlockName) + " " + AttributeSegment(stringify, attributes) + "/")
  {
    var name := DelimiterName(rawBlockName);
    var segment := AttributeSegment(stringify, attributes);
    assert GetCommentDelimitedContent(stringify, rawBlockName, attributes, "") == "<!-- wp:" + name + " " + segment + "/-->";
    assert "<!-- wp:" + name + " " + segment + "/-->" == Comment(" wp:" + name + " " + segment + "/") by {
      assert "<!-- wp:" == "<!--" + " wp:";
      assert "/-->" == "/" + "-->";
    }
  }

  /** With content, the delimited form is an opening comment, the content and a closing comment, on their own lines. */
  lemma PairedAsComments(stringify: seq<Property> -> string, rawBlockName: string, attributes: seq<Property>, content: string)
    requires content != ""
    ensures var name := DelimiterName(rawBlockName);
      GetCommentDelimitedContent(stringify, rawBlockName, attributes, content) ==
      Comment(" wp:" + name + " " + AttributeSegment(stringify, attributes)) + "\n" + content + "\n" + Comment(" /wp:" + name + " ")
  {
    var name := DelimiterName(rawBlockName);
    var segment := AttributeSegment(stringify, attributes);
    var open := "<!-- wp:" + name + " " + segment + "-->\n";
    var close := "\n<!-- /wp:" + name + " -->";
    assert open == Comment(" wp:" + name + " " + segment) + "\n" by {
      assert "<!-- wp:" == "<!--" + " wp:";
      assert "-->\n" == "-->" + "\n";
    }
    assert close == "\n" + Comment(" /wp:" + name + " ") by {
      assert "\n<!-- /wp:" == "\n" + "<!--" + " /wp:";
      assert " -->" == " " + "-->";
    }
    assert GetCommentDelimitedContent(stringify, rawBlockName, attributes, content) == open + content + close by {
      var head := "<!-- wp:" + name + " " + segment;
      assert head + "-->\n" + content + "\n<!-- /wp:" + name + " -->" == (head + "-->\n") + content + ("\n<!-- /wp:" + name + " -->");
    }
  }

  /**
   * The delimited form is one well-formed comment when the content is empty,
   * and otherwise an opening comment, a newline, the content verbatim, a
   * newline and a closing comment, for every block name; the comment
   * bodies are well formed, whatever the attribute values, when the block
   * name is itself safe comment text.
   */
  lemma DelimitedContentStructure(stringify: seq<Property> -> string, rawBlockName: string,
                                  attributes: seq<Property>, content: string)
    ensures var name := DelimiterName(rawBlockName);
      var segment := AttributeSegment(stringify, attributes);
      && (SafeCommentText(rawBlockName) ==> IsCommentBody(" wp:" + name + " " + segment + "/"))
      && (SafeCommentText(rawBlockName) ==> IsCommentBody(" wp:" + name + " " + segment))
      && (SafeCommentText(rawBlockName) ==> IsCommentBody(" /wp:" + name + " "))
      && (content == "" ==>
            GetCommentDelimitedContent(stringify, rawBlockName, attributes, content) == Comment(" wp:" + name + " " + segment + "/"))
      && (content != "" ==>
            GetCommentDelimitedContent(stringify, rawBlockName, attributes, content) ==
            Comment(" wp:" + name + " " + segment) + "\n" + content + "\n" + Comment(" /wp:" + name + " "))
  {
    if SafeCommentText(rawBlockName) {
      DelimiterBodiesAreSafe(stringify, rawBlockName, attributes);
    }
    if content == "" {
      SelfClosingAsComment(stringify, rawBlockName, attributes);
    } else {
      PairedAsComments(stringify, rawBlockName, attributes, content);
    }
  }

  /** A separator with no comment attributes and no content is self-closing. */
  lemma SeparatorExample(stringify: seq<Property> -> string, name: string)
    requires name == "core/separator"
    ensures GetCommentDelimitedContent(stringify, name, [], "") == "<!-- wp:separator /-->"
  {
    assert name[..5] == "core/" && name[5..] == "separator";
    assert AttributeSegment(stringify, []) == "";
  }

  // ---------------------------------------------------------------------
  // Blocks and posts
  // ---------------------------------------------------------------------

  /** `object[ key ]` on an object built by the serializer: `undefined` for a missing key. */
  function PropertyValue(props: seq<Property>, key: string): (r: Value)
    decreases |props|
  {
    if props == [] then Undefined
    else if props[0].key == key then props[0].value
    else PropertyValue(props[1..], key)
  }

  /** lodash `compact` on strings: drops the empty ones. */
  function Compact(parts: seq<string>): (r: seq<string>)
    ensures forall i :: 0 <= i < |r| ==> r[i] != ""
    decreases |parts|
  {
    if parts == [] then []
    else if parts[0] == "" then Compact(parts[1..])
    else [parts[0]] + Compact(parts[1..])
  }

  /** The legacy `more` tag built from the comment attributes. */
  function MoreTag(saveAttributes: seq<Property>): (r: string) {
    var customText := PropertyValue(saveAttributes, "customText");
    var noTeaser := PropertyValue(saveAttributes, "noTeaser");
    Join(Compact([MoreTagLine(customText), NoTeaserLine(noTeaser)]), "\n")
  }

  /** The `moreTag` line: the custom text in the comment when it is truthy. */
  function MoreTagLine(customText: Value): (r: string) {
    if Truthy(customText) then "<!--more " + TemplateString(customText) + "-->" else "<!--more-->"
  }

  /** The `noTeaserTag` line: empty unless `noTeaser` is truthy. */
  function NoTeaserLine(noTeaser: Value): (r: string) {
    if Truthy(noTeaser) then "<!--noteaser-->" else ""
  }

  /** `compact( [ moreTag, noTeaserTag ] ).join( '\n' )` for a non-empty `moreTag`. */
  lemma CompactJoinPair(moreTag: string, noTeaserTag: string)
    requires moreTag != ""
    ensures Join(Compact([moreTag, noTeaserTag]), "\n") == if noTeaserTag == "" then moreTag else moreTag + "\n" + noTeaserTag
  {
    var parts := [moreTag, noTeaserTag];
    assert parts[1..] == [noTeaserTag] && [noTeaserTag][1..] == [];
    assert Compact(parts) == [moreTag] + Compact([noTeaserTag]);
    if noTeaserTag == "" {
      assert Compact([noTeaserTag]) == Compact([]) == [];
      assert Compact(parts) == [moreTag];
    } else {
      assert Compact([noTeaserTag]) == [noTeaserTag] + Compact([]);
      assert Compact(parts) == [moreTag, noTeaserTag];
      assert [moreTag, noTeaserTag][1..] == [noTeaserTag];
    }
  }

  /** The `more` tag carries the custom text when it is truthy, and is followed by a `noteaser` line exactly when `noTeaser` is truthy. */
  lemma MoreTagForm(saveAttributes: seq<Property>)
    ensures var customText := PropertyValue(saveAttributes, "customText");
      var noTeaser := PropertyValue(saveAttributes, "noTeaser");
      MoreTag(saveAttributes) ==
        (if Truthy(customText) then "<!--more " + TemplateString(customText) + "-->" else "<!--more-->") +
        (if Truthy(noTeaser) then "\n<!--noteaser-->" else "")
  {
    var customText := PropertyValue(saveAttributes, "customText");
    var noTeaser := PropertyValue(saveAttributes, "noTeaser");
    var moreTag, noTeaserTag := MoreTagLine(customText), NoTeaserLine(noTeaser);
    assert |moreTag| > 0;
    CompactJoinPair(moreTag, noTeaserTag);
    assert moreTag == if Truthy(customText) then "<!--more " + TemplateString(customText) + "-->" else "<!--more-->";
    if Truthy(noTeaser) {
      NoTeaserOnItsLine(moreTag, noTeaserTag);
    } else {
      assert noTeaserTag == "";
    }
  }

  /** The `noteaser` tag on a line after the more tag. */
  lemma NoTeaserOnItsLine(moreTag: string, noTeaserTag: string)
    requires noTeaserTag == "<!--noteaser-->"
    ensures moreTag + "\n" + noTeaserTag == moreTag + "\n<!--noteaser-->"
  {
    assert "\n" + noTeaserTag == "\n<!--noteaser-->";
  }

  /** `serializeBlock`; an unregistered block type makes `getCommentAttributes` throw. */
  function SerializeBlock(env: Env, block: Block): (r: Result<string, SerializeError>)
    ensures r.Failure? <==> env.getBlockType(block.name).None?
    ensures r.Failure? ==> r.error == UnregisteredBlockType(block.name)
  {
    match env.getBlockType(block.name)
    case None => Failure(UnregisteredBlockType(block.name))
    case Some(blockType) =>
      var saveContent := BlockContent(env, block);
      var saveAttributes := CommentAttributes(block.attributes, blockType.attributes);
      if block.name == "core/more" then Success(MoreTag(saveAttributes))
      else if env.unknownTypeHandlerName == Some(block.name) then Success(saveContent)
      else Success(GetCommentDelimitedContent(env.stringify, block.name, saveAttributes, saveContent))
  }

  /** A `core/more` block is the `more` tag of its comment attributes, whatever its content. */
  lemma SerializeMoreBlock(env: Env, block: Block)
    requires block.name == "core/more" && env.getBlockType(block.name).Some?
    ensures var saveAttributes := CommentAttributes(block.attributes, env.getBlockType(block.name).value.attributes);
      var customText := PropertyValue(saveAttributes, "customText");
      var noTeaser := PropertyValue(saveAttributes, "noTeaser");
      SerializeBlock(env, block) == Success(
        (if Truthy(customText) then "<!--more " + TemplateString(customText) + "-->" else "<!--more-->") +
        (if Truthy(noTeaser) then "\n<!--noteaser-->" else ""))
  {
    MoreTagForm(CommentAttributes(block.attributes, env.getBlockType(block.name).value.attributes));
  }

  /** A block of the unknown-type handler is its content alone, not beautified and without delimiters. */
  lemma SerializeUnknownTypeBlock(env: Env, block: Block)
    requires block.name != "core/more" && env.unknownTypeHandlerName == Some(block.name)
    requires env.getBlockType(block.name).Some?
    ensures SerializeBlock(env, block) == Success(RawBlockContent(env, block))
  {
  }

  /**
   * Any other registered block is its content verbatim between an opening
   * and a closing comment, or one self-closing comment when the content is
   * empty; the opening one carries exactly the comment attributes.
   */
  lemma SerializeDelimitedBlock(env: Env, block: Block)
    requires block.name != "core/more" && env.unknownTypeHandlerName != Some(block.name)
    requires env.getBlockType(block.name).Some?
    ensures var name := DelimiterName(block.name);
      var segment := AttributeSegment(env.stringify, CommentAttributes(block.attributes, env.getBlockType(block.name).value.attributes));
      var content := BlockContent(env, block);
      && (content == "" ==> SerializeBlock(env, block) == Success(Comment(" wp:" + name + " " + segment + "/")))
      && (content != "" ==>
            SerializeBlock(env, block) ==
            Success(Comment(" wp:" + name + " " + segment) + "\n" + content + "\n" + Comment(" /wp:" + name + " ")))
      && (SafeCommentText(block.name) ==> IsCommentBody(" wp:" + name + " " + segment + "/"))
      && (SafeCommentText(block.name) ==> IsCommentBody(" wp:" + name + " " + segment))
      && (SafeCommentText(block.name) ==> IsCommentBody(" /wp:" + name + " "))
  {
    var attributes := CommentAttributes(block.attributes, env.getBlockType(block.name).value.attributes);
    DelimitedContentStructure(env.stringify, block.name, attributes, BlockContent(env, block));
  }

  /** The schema of the `more` block declares `customText` and `noTeaser` without a source; `noTeaser` defaults to false. */
  predicate IsMoreSchema(entries: seq<SchemaEntry>) {
    entries == [SchemaEntry("customText", AttributeSchema(false, None)),
                SchemaEntry("noTeaser", AttributeSchema(false, Some(Bool(false))))]
  }

  /** The comment attributes of a `more` block with a non-empty custom text and `noTeaser` set: both, in schema order. */
  lemma MoreExampleAttributes(all: Attributes, entries: seq<SchemaEntry>, text: string)
    requires IsMoreSchema(entries)
    requires all == map["customText" := Str(text), "noTeaser" := Bool(true)]
    ensures CommentAttributes(all, entries) == [Property("customText", Str(text)), Property("noTeaser", Bool(true))]
  {
    var customText, noTeaser := Str(text), Bool(true);
    assert AttributeValue(all, "customText") == customText;
    assert AttributeValue(all, "noTeaser") == noTeaser;
    assert entries[..1][..0] == [];
    assert entries[..|entries| - 1] == entries[..1];
    assert IsCommentAttribute(entries[0].schema, customText);
    assert IsCommentAttribute(entries[1].schema, noTeaser);
    assert CommentAttributes(all, entries[..1]) == [Property("customText", customText)] by {
      assert CommentAttributes(all, entries[..1][..0]) == [];
    }
    assert CommentAttributes(all, entries) == [Property("customText", customText)] + [Property("noTeaser", noTeaser)];
  }

  /** The more tag of a non-empty custom text with `noTeaser` set. */
  lemma MoreExampleTag(props: seq<Property>, text: string)
    requires text != ""
    requires props == [Property("customText", Str(text)), Property("noTeaser", Bool(true))]
    ensures MoreTag(props) == "<!--more " + text + "-->" + "\n<!--noteaser-->"
  {
    var customText, noTeaser := Str(text), Bool(true);
    assert PropertyValue(props, "customText") == customText;
    assert props[1..] == [Property("noTeaser", noTeaser)];
    assert PropertyValue(props, "noTeaser") == noTeaser;
    MoreTagForm(props);
  }

  /** A `more` block with a non-empty custom text and `noTeaser` set is `<!--more text-->` followed by the `noteaser` line. */
  lemma SerializeMoreExample(env: Env, block: Block, text: string)
    requires block.name == "core/more"
    requires env.getBlockType(block.name).Some? && IsMoreSchema(env.getBlockType(block.name).value.attributes)
    requires text != ""
    requires block.attributes == map["customText" := Str(text), "noTeaser" := Bool(true)]
    ensures SerializeBlock(env, block) == Success("<!--more " + text + "-->" + "\n<!--noteaser-->")
  {
    var props := CommentAttributes(block.attributes, env.getBlockType(block.name).value.attributes);
    MoreExampleAttributes(block.attributes, env.getBlockType(block.name).value.attributes, text);
    MoreExampleTag(props, text);
    assert SerializeBlock(env, block) == Success(MoreTag(props));
  }

  /** What `serialize` accepts: one block or a list of them. */
  datatype BlockOrBlocks = OneBlock(block: Block) | BlockList(blocks: seq<Block>)

  /** lodash `castArray`. */
  function CastArray(blocks: BlockOrBlocks): (r: seq<Block>) {
    match blocks
    case OneBlock(block) => [block]
    case BlockList(list) => list
  }

  /** `xs.map( f )` for an `f` that may throw: the first throw escapes the map. */
  function MapOrFail<T>(f: T -> Result<string, SerializeError>, xs: seq<T>): (r: Result<seq<string>, SerializeError>)
    decreases |xs|
  {
    if xs == [] then Success([])
    else match f(xs[0])
      case Failure(e) => Failure(e)
      case Success(text) =>
        match MapOrFail(f, xs[1..])
        case Failure(e) => Failure(e)
        case Success(rest) => Success([text] + rest)
  }

  /**
   * The map succeeds exactly when `f` succeeds on every element, and then
   * holds one result per element, in order; otherwise it fails with the
   * error of the first element on which `f` fails.
   */
  lemma {:induction false} MapOrFailResults<T>(f: T -> Result<string, SerializeError>, xs: seq<T>)
    ensures var r := MapOrFail(f, xs);
      && (r.Success? <==> forall i :: 0 <= i < |xs| ==> f(xs[i]).Success?)
      && (r.Success? ==>
            && |r.value| == |xs|
            && (forall i :: 0 <= i < |xs| ==> r.value[i] == f(xs[i]).value))
      && (r.Failure? ==>
            exists i :: && 0 <= i < |xs|
                        && f(xs[i]) == Failure(r.error)
                        && (forall j :: 0 <= j < i ==> f(xs[j]).Success?))
    decreases |xs|
  {
    if xs != [] {
      MapOrFailResults(f, xs[1..]);
      var r := MapOrFail(f, xs);
      if f(xs[0]).Success? {
        var tail := MapOrFail(f, xs[1..]);
        if tail.Failure? {
          var i :| 0 <= i < |xs[1..]| && f(xs[1..][i]) == Failure(tail.error) &&
            forall j :: 0 <= j < i ==> f(xs[1..][j]).Success?;
          assert f(xs[i + 1]) == Failure(r.error);
          forall j | 0 <= j < i + 1 ensures f(xs[j]).Success? {
            if j > 0 { assert xs[j] == xs[1..][j - 1]; }
          }
        } else {
          assert r.value == [f(xs[0]).value] + tail.value;
          forall i | 0 <= i < |xs| ensures r.value[i] == f(xs[i]).value {
            if i > 0 { assert xs[i] == xs[1..][i - 1]; }
          }
        }
      }
    }
  }

  /** Mapping over two lists in a row gives the two mapped lists in a row. */
  lemma {:induction false} MapOrFailConcat<T>(f: T -> Result<string, SerializeError>, first: seq<T>, second: seq<T>)
    requires MapOrFail(f, first).Success? && MapOrFail(f, second).Success?
    ensures MapOrFail(f, first + second) == Success(MapOrFail(f, first).value + MapOrFail(f, second).value)
    decreases |first|
  {
    if first == [] {
      assert first + second == second;
      assert MapOrFail(f, first).value == [];
      var rest := MapOrFail(f, second).value;
      assert [] + rest == rest;
    } else {
      assert (first + second)[0] == first[0];
      assert (first + second)[1..] == first[1..] + second;
      assert f(first[0]).Success? && MapOrFail(f, first[1..]).Success?;
      MapOrFailConcat(f, first[1..], second);
      var head, tail, rest := f(first[0]).value, MapOrFail(f, first[1..]).value, MapOrFail(f, second).value;
      assert MapOrFail(f, first) == Success([head] + tail);
      assert MapOrFail(f, first + second) == Success([head] + (tail + rest));
      assert [head] + (tail + rest) == ([head] + tail) + rest;
    }
  }

  /** `serialize`: the blocks' serializations, in order, separated by a blank line. */
  function Serialize(env: Env, blocks: BlockOrBlocks): (r: Result<string, SerializeError>)
    ensures r.Success? <==> forall b :: b in CastArray(blocks) ==> env.getBlockType(b.name).Some?
    ensures r.Failure? ==> exists b :: b in CastArray(blocks) && r.error == UnregisteredBlockType(b.name)
  {
    var serializeBlock := (block: Block) => SerializeBlock(env, block);
    MapOrFailResults(serializeBlock, CastArray(blocks));
    match MapOrFail(serializeBlock, CastArray(blocks))
    case Success(parts) => Success(Join(parts, "\n\n"))
    case Failure(e) => Failure(e)
  }

  /** Each block's own serialization, in order (empty for a block that fails). */
  function SerializedParts(env: Env, blocks: seq<Block>): (r: seq<string>)
    ensures |r| == |blocks|
  {
    seq(|blocks|, i requires 0 <= i < |blocks| =>
      match SerializeBlock(env, blocks[i])
      case Success(text) => text
      case Failure(_) => "")
  }

  /** A post that serializes is its blocks' serializations, in order, joined by a blank line. */
  lemma SerializeJoinsBlocks(env: Env, blocks: BlockOrBlocks)
    ensures Serialize(env, blocks).Success? ==>
      && (forall i :: 0 <= i < |CastArray(blocks)| ==> SerializeBlock(env, CastArray(blocks)[i]).Success?)
      && Serialize(env, blocks).value == Join(SerializedParts(env, CastArray(blocks)), "\n\n")
  {
    var xs := CastArray(blocks);
    var serializeBlock := (block: Block) => SerializeBlock(env, block);
    MapOrFailResults(serializeBlock, xs);
    var mapped := MapOrFail(serializeBlock, xs);
    if mapped.Success? {
      var parts := SerializedParts(env, xs);
      forall i | 0 <= i < |xs| ensures mapped.value[i] == parts[i] {
        assert serializeBlock(xs[i]) == SerializeBlock(env, xs[i]);
      }
      assert mapped.value == parts;
    }
  }

  /** A single block is serialized as a one-element list: exactly its own serialization. */
  lemma SerializeOneBlock(env: Env, block: Block)
    ensures Serialize(env, OneBlock(block)) == SerializeBlock(env, block)
  {
    var serializeBlock := (b: Block) => SerializeBlock(env, b);
    assert [block][1..] == [];
    assert serializeBlock([block][0]) == SerializeBlock(env, block);
    match SerializeBlock(env, block)
    case Success(text) =>
      assert MapOrFail(serializeBlock, [block][1..]) == Success([]);
      assert [text] + [] == [text];
      assert MapOrFail(serializeBlock, [block]) == Success([text]);
    case Failure(e) =>
      assert MapOrFail(serializeBlock, [block]) == Failure(e);
  }

  lemma SerializeEmptyList(env: Env)
    ensures Serialize(env, BlockList([])) == Success("")
  {
  }

  /** Serializing two lists one after the other is serializing each and separating them by a blank line. */
  lemma SerializeListConcat(env: Env, first: seq<Block>, second: seq<Block>)
    requires first != [] && second != []
    requires Serialize(env, BlockList(first)).Success? && Serialize(env, BlockList(second)).Success?
    ensures Serialize(env, BlockList(first + second)) ==
      Success(Serialize(env, BlockList(first)).value + "\n\n" + Serialize(env, BlockList(second)).value)
  {
    var serializeBlock := (block: Block) => SerializeBlock(env, block);
    MapOrFailConcat(serializeBlock, first, second);
    JoinConcat(MapOrFail(serializeBlock, first).value, MapOrFail(serializeBlock, second).value, "\n\n");
  }
}
