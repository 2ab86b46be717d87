# Block serializer and attribute stripper

A Dafny model of two pieces of the block editor's content pipeline.

- The **serializer**:
  - It turns in-memory blocks into the stored post text.
  - Each block becomes its saved markup wrapped in HTML comment delimiters, `<!-- wp:name {json} -->` … `<!-- /wp:name -->`. When the content is empty, it becomes one self-closing `<!-- wp:name {json} /-->`.
  - The JSON holds only the attributes that cannot be recovered from the markup.
  - The `core/more` block becomes the legacy `<!--more-->` tag.
  - A block of the unknown-type handler is written out bare.
  - Blocks are separated by a blank line.
- The **attribute stripper**:
  - It sanitises a pasted DOM element in place.
  - Every attribute that the whitelist does not allow for the element's lower-cased tag is removed.
  - `class` is narrowed to its non-empty, whitelisted tokens.

Files:

- `wrappers.dfy`: `Option` and `Result`.
- `strings.dfy` (module `Strings`): the JavaScript text built-ins the code relies on, written out. These are `startsWith`, `replace` with and without the global flag, `split` on one character, `join`, `toString(radix)` and ASCII `toLowerCase`. The module also proves the facts about them that the other two modules use.
- `serializer.dfy` (module `Serializer`): `blocks/api/serializer.js`.
  - The collaborators the file calls but does not define are fields of an `Env` value: the block-type registry, the unknown-type handler name, `JSON.stringify` and the markup beautifier.
  - `getCommentAttributes` and `getBlockContent` are methods proved equal to the functions `CommentAttributes` and `BlockContent`. The properties are proved about those two functions.
- `strip_attributes.dfy` (module `StripAttributes`): `blocks/api/raw-handling/strip-attributes.js`.
  - The DOM node is a class `Node` whose attribute list changes in place.
  - `Strip` is a method that walks a snapshot of the attributes, removing them one at a time, and then sets or removes `class`.
  - It is proved to leave exactly `Stripped(type, name, old attributes)`. Every property of stripping is proved about that function.

The model follows the code in two places that are easy to misread:

- `friendlyBlockName` replaces only the first `/` (the pattern has no `g` flag). The `core-` prefix is dropped afterwards, so `core-embed/twitter` gives `embed-twitter`.
- The content of a block parsed as invalid is its original content. It is still passed through the beautifier, unless it is empty or the block is the unknown-type handler's (serializer.js:180).

## Model

| member | source | states |
|---|---|---|
| Serializer.DefaultClassnameOfNamespaced | blocks/api/serializer.js:24-36 | the class name of `ns/local` is `wp-block-local` for the `core` namespace; `wp-block-` + the namespace without `core-` + `-local` for a `core-…` namespace; and `wp-block-ns-local` otherwise |
| Serializer.DefaultClassnameWithoutSlash | blocks/api/serializer.js:24-36 | a name without `/` only loses a leading `core-` |
| Serializer.CoreClassname | blocks/api/serializer.js:19-36 | a `core/` block's class is `wp-block-` and its local name, so `core/quote` has `wp-block-quote` |
| Serializer.CoreNamespaceClassname | blocks/api/serializer.js:19-36 | a block in a `core-SUB/` namespace has the class `wp-block-SUB-` and its local name, so `core-embed/twitter` has `wp-block-embed-twitter` |
| Strings.ReplaceFirstAt | blocks/api/serializer.js:25 | a replace without the global flag changes only the first occurrence and keeps everything around it |
| Serializer.RandomBase36StringAsWritten | blocks/api/serializer.js:45-47 | as written, with lodash `random` including its upper bound, the token has between 1 and 8 characters |
| Serializer.RandomBase36StringAsWrittenReachesEightChars | blocks/api/serializer.js:38-47 | the draw `36^7` gives an 8-character token, against the promised maximum of seven |
| Strings.NatToStringLength | blocks/api/serializer.js:46 | `n.toString(radix)` has at most `k` digits exactly when `n < radix^k` |
| Serializer.RandomBase36String | blocks/api/serializer.js:38-47 | with the draw below `36^7`, the token has between 1 and 7 characters |
| Serializer.GetBlockRandomAnchor | blocks/api/serializer.js:55-57 | the anchor is the default class name, `-` and a token of 1 to 7 characters |
| Serializer.CommentAttributes | blocks/api/serializer.js:113-139 | every persisted value is the block's own value for that key, its key is declared by the schema, and there are no more entries than in the schema |
| Serializer.CommentAttributesSelection | blocks/api/serializer.js:114-136 | a key and value are persisted exactly when the schema declares the key, the value is defined, the schema gives no source, the value is not the declared default, and the value is the block's |
| Serializer.CommentAttributesKeysDistinct | blocks/api/serializer.js:114-136 | the persisted object never has a key twice |
| Serializer.GetCommentAttributes | blocks/api/serializer.js:113-139 | the `reduce` that fills the accumulator key by key leaves exactly `CommentAttributes` of the schema, in schema order |
| Serializer.EscapeCommentJsonInOnePass | blocks/api/serializer.js:141-147 | the four global replaces in a row equal one left-to-right pass escaping `--`, `<`, `>` and `&` |
| Serializer.EscapeInOnePassIsSafe | blocks/api/serializer.js:141-147 | the escaped text has no `<`, `>`, `&` or `--`, and it starts with `-` only when the JSON does and is not followed by another `-` |
| Serializer.SerializeAttributes | blocks/api/serializer.js:141-147 | the serialized attributes are the escaped JSON and cannot end an HTML comment early or open a tag |
| Serializer.UnescapeEscape | blocks/api/serializer.js:141-147 | decoding the four escapes gives back the text, for any text without a backslash directly followed by `u` (so `\"`, `\\` and `\n` are covered) |
| Serializer.SerializeAttributesReversible | blocks/api/serializer.js:141-147 | the JSON can be recovered from the serialized attributes, for JSON without a backslash directly followed by `u` |
| Serializer.BlockContentFallback | blocks/api/serializer.js:168-181 | an invalid block, or one whose save throws (an unregistered type among them), uses its original content, and otherwise the saved markup is used; unknown-type and empty content are returned as they are, and anything else is beautified |
| Serializer.InvalidBlockIgnoresSave | blocks/api/serializer.js:171-178 | the content of an invalid block does not depend on the registry at all |
| Serializer.GetBlockContent | blocks/api/serializer.js:168-181 | the `try`/`catch` over the reassigned `saveContent` computes `BlockContent` |
| Serializer.DelimiterName | blocks/api/serializer.js:196-199 | a `core/` name loses exactly that prefix, and any other name is kept |
| Serializer.SelfClosingAsComment | blocks/api/serializer.js:201-203 | empty content gives a single self-closing comment |
| Serializer.PairedAsComments | blocks/api/serializer.js:205-209 | non-empty content is kept verbatim between an opening and a closing comment, on lines of their own |
| Serializer.DelimiterBodiesAreSafe | blocks/api/serializer.js:191-209 | for a block name that is safe comment text, each delimiter's comment body is well formed: no `<`, `>` or `--`, neither starting nor ending with `-` |
| Serializer.DelimitedContentStructure | blocks/api/serializer.js:191-209 | for every block name, the self-closing form for empty content and the paired form otherwise; for a name that is safe comment text, well-formed comment bodies too |
| Serializer.SeparatorExample | blocks/api/serializer.js:191-203 | `core/separator` with no attributes and no content is `<!-- wp:separator /-->` |
| Serializer.MoreTagForm | blocks/api/serializer.js:226-237 | the more tag is `<!--more TEXT-->` when `customText` is truthy and `<!--more-->` otherwise; `\n<!--noteaser-->` follows exactly when `noTeaser` is truthy |
| Serializer.SerializeBlock | blocks/api/serializer.js:219-245 | serializing a block fails exactly when its type is not registered, with that block's name |
| Serializer.SerializeMoreBlock | blocks/api/serializer.js:226-237 | a `core/more` block is the more tag of its comment attributes, whatever its content |
| Serializer.MoreExampleAttributes | blocks/api/serializer.js:113-139 | with the `more` schema, a custom text and `noTeaser` set, both attributes are persisted in schema order |
| Serializer.MoreExampleTag | blocks/api/serializer.js:226-237 | the comment attributes of a non-empty custom text and `noTeaser` set give `<!--more ` + text + `-->\n<!--noteaser-->` |
| Serializer.SerializeMoreExample | blocks/api/serializer.js:226-237 | a more block with a non-empty custom text (say `Continue`) and `noTeaser` set serializes to `<!--more ` + text + `-->\n<!--noteaser-->` |
| Serializer.SerializeUnknownTypeBlock | blocks/api/serializer.js:239-240 | a block of the unknown-type handler is its content alone, with no delimiters and no beautifying |
| Serializer.SerializeDelimitedBlock | blocks/api/serializer.js:242-243 | any other registered block, whatever its name, is wrapped in delimiters that carry exactly its comment attributes; their comment bodies are well formed when the name is safe comment text |
| Serializer.MapOrFailResults | blocks/api/serializer.js:254 | the map succeeds exactly when every call does, keeps one result per element in order, and otherwise fails with the error of the first failing element |
| Serializer.MapOrFailConcat | blocks/api/serializer.js:254 | mapping two lists in a row gives the two mapped lists in a row |
| Serializer.Serialize | blocks/api/serializer.js:253-255 | serializing a post succeeds exactly when every block's type is registered, and otherwise names an unregistered block |
| Serializer.SerializeJoinsBlocks | blocks/api/serializer.js:253-255 | a post that serializes is its blocks' serializations, in order, joined by `\n\n` |
| Serializer.SerializeOneBlock | blocks/api/serializer.js:254 | a single block is serialized exactly as itself |
| Serializer.SerializeEmptyList | blocks/api/serializer.js:254 | an empty list gives the empty post |
| Serializer.SerializeListConcat | blocks/api/serializer.js:254 | serializing two lists in a row gives their serializations separated by a blank line |
| StripAttributes.Strip | blocks/api/raw-handling/strip-attributes.js:11-45 | stripping in place leaves the node with exactly `Stripped` of its old attributes, and its attribute names stay distinct |
| StripAttributes.Stripped | blocks/api/raw-handling/strip-attributes.js:12-18 | a node that is not an element, or has no attributes, is left as it was |
| StripAttributes.Node.GetAttribute | blocks/api/raw-handling/strip-attributes.js:30 | reading an attribute gives `null` exactly when no attribute has that name |
| StripAttributes.Node.RemoveAttribute | blocks/api/raw-handling/strip-attributes.js:27 | removing a name drops the attributes with that name and keeps the names distinct |
| StripAttributes.Node.SetAttribute | blocks/api/raw-handling/strip-attributes.js:41 | setting a name replaces its value where it stands, or appends it, and keeps the names distinct |
| StripAttributes.KeepWhitelisted | blocks/api/raw-handling/strip-attributes.js:22-28 | the first pass keeps exactly the `class` attribute and the whitelisted ones |
| StripAttributes.LookupKept | blocks/api/raw-handling/strip-attributes.js:22-30 | the first pass does not change what `getAttribute('class')` returns |
| StripAttributes.StripLeavesOnlyWhitelisted | blocks/api/raw-handling/strip-attributes.js:22-28 | after stripping an element, every attribute other than `class` is whitelisted for its lower-cased tag |
| StripAttributes.StripKeepsWhitelisted | blocks/api/raw-handling/strip-attributes.js:22-28 | every whitelisted attribute that was present is still present, with its value |
| StripAttributes.StripLeavesEmptyClass | blocks/api/raw-handling/strip-attributes.js:30-34 | a missing or empty `class` is left exactly as it was |
| StripAttributes.FilterClasses | blocks/api/raw-handling/strip-attributes.js:36-38 | a token survives exactly when it is non-empty and whitelisted for the tag |
| StripAttributes.FilterClassesConcat | blocks/api/raw-handling/strip-attributes.js:36-38 | the filter distributes over concatenation, so surviving tokens keep their original order |
| Strings.SplitJoin | blocks/api/raw-handling/strip-attributes.js:36-41 | splitting a space-joined list of tokens without spaces gives the tokens back |
| Strings.JoinSplit | blocks/api/raw-handling/strip-attributes.js:36-41 | joining the pieces of a split with the separator gives back the text |
| StripAttributes.StripNarrowsClass | blocks/api/raw-handling/strip-attributes.js:36-44 | a non-empty `class` becomes its surviving tokens joined by single spaces; when no token survives, the attribute is gone |
| StripAttributes.StripNeverAdds | blocks/api/raw-handling/strip-attributes.js:22-44 | stripping never adds an attribute, and every attribute left other than `class` is unchanged |
| StripAttributes.StripKeepsDistinct | blocks/api/raw-handling/strip-attributes.js:22-44 | stripping keeps attribute names distinct |
| StripAttributes.StripIdempotent | blocks/api/raw-handling/strip-attributes.js:22-44 | stripping a stripped element changes nothing |

## Left out

- `getSaveContent` (blocks/api/serializer.js:67-96) is not modelled in detail. Its rendering uses React elements, `cloneElement`, `Children.map`, `renderToString` and the `getSaveContent.extraProps` filter. The model stands a block type's `save` in for it: a function from attributes to markup or a thrown error.
- The beautifier (blocks/api/serializer.js:156-161) and `JSON.stringify` are foreign libraries. They are uninterpreted string functions in `Env`. The escaping is proved safe for any JSON text, and reversible for the JSON texts that `Serializer.SerializeAttributesReversible` names.
- The block-type registry (`getBlockType`, `getUnknownTypeHandlerName`) and the whitelist predicates `isAttributeWhitelisted` and `isClassWhitelisted` are parameters. `raw-handling/utils` is not part of this model.
- Randomness: the number lodash `random` draws is a parameter of `GetBlockRandomAnchor`.
- Attribute values have no floating-point numbers, `NaN` or `-0`. A number is an integer. An array or object carries its identity, compared with `===`, and the text `String(v)` gives it (`[object Object]`, or an array's comma-joined elements), taken as given rather than computed. Its JSON form belongs to `JSON.stringify`.
- Serializer.CommentAttributes: the persisted keys come in schema order. A JavaScript object lists integer-like keys (such as `"1"`) before the others, and that reordering is not modelled.
- Serializer.SerializeAttributesReversible: reversibility is stated only for JSON without a backslash directly followed by `u`. `JSON.stringify` writes such a pair for a control character or a lone surrogate, and for a backslash followed by `u` in a string (as `\\u`). JSON text may then contain the six characters `\u003c` of its own, and a character-level decoder cannot tell those apart from an escape.
- Serializer.UnescapeEscape: stated only for text without a backslash directly followed by `u`, for the same reason.
- Serializer.MoreTagForm: a number in the custom text is written with all its digits. JavaScript writes a number of magnitude `10^21` or more in exponent form (`1e+21`), and that form is not modelled. The same holds for `Serializer.SerializeMoreBlock`, which states the tag through `TemplateString`.
- `toLowerCase` on a tag name lowers ASCII letters only. DOM tag names are ASCII.
- An absent `originalContent` is written as `""`. It behaves the same on every path: it is falsy and reaches the beautifier in neither case.
- `serialize` takes one block or a list of blocks. `castArray` of `null` or `undefined`, which would make `serializeBlock` throw on a missing block, is not modelled.
- StripAttributes.Strip: the node is an element's attribute list with distinct names, as the DOM keeps it. Child nodes, namespaces and the live `NamedNodeMap` are not modelled. The loop walks a snapshot of the attributes, as `Array.from` takes one.
- blocks/api/source.js, the block library files, the editor files and the hooks file are not part of this model. They are UI components, a REST fetch, timers, filter registration and wrappers over a DOM library not shown.

## Findings

| source | as written | input that shows it | evidently intended | confidence | as-written member | corrected member |
|---|---|---|---|---|---|---|
| blocks/api/serializer.js:45-47 | `random( 0, Math.pow( 36, 7 ), false )` includes its upper bound, so it has `36^7 + 1` outcomes | the draw `36^7`, whose base-36 form is `10000000`, eight characters | at most seven characters and `36^7` outcomes, as the comment at lines 38-41 says, that is a draw below `36^7` | high (not executed) | Serializer.RandomBase36StringAsWritten, Serializer.RandomBase36StringAsWrittenReachesEightChars | Serializer.RandomBase36String, Serializer.GetBlockRandomAnchor |
