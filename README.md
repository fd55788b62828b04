# ProtoFlux node display: label-enhancement engine

A Dafny model of the engine of ProtoFluxNodeDisplayMod, a Resonite mod that
rewrites the names shown in the ProtoFlux node browser so that they carry the
symbol NeosVR used for the same node: `Add` is shown as `+(Add)`,
`ShiftLeft` as `<<(ShiftLeft)`.

The model has five modules, one per part of the engine:

- `NetStrings` (`net_strings.dfy`): a .NET string reference that may be null,
  with `string.IsNullOrEmpty`, `char.IsWhiteSpace` and
  `string.IsNullOrWhiteSpace`.
- `Translation` (`translation.dfy`): the 41-entry table from Resonite node
  names to NeosVR symbols and the pure rewrite `Enhance` (`symbol(name)` on a
  hit, the name itself on a miss). It also holds the proofs that the shipped
  table has no empty key and no key containing `(`, that a rewritten label
  rewrites to itself, and that the node name can be read back from its label.
- `Enhancer` (`label_enhancer.dfy`): class `LabelEnhancer`. It owns the
  table (a `const`) and the memo cache (a `var` map that only grows). Its
  invariant `Valid()` says that every cached entry is what the uncached
  rewrite computes. `GetEnhancedTextContent` is proved against `EnhanceText`,
  and its contract also states the exact new cache.
- `Eligibility` (`eligibility.dfy`): classes `Slot` (name, has a
  `ComponentSelector`, parent) and `Text` (slot, content). It has the two
  `while` loops that walk from a slot to the root, `ShouldEnhanceText`, and
  `IsTargetNodeText`. A walk is given as a ghost sequence `chain` of slots
  from the start slot to a root, linked by `parent` (`IsWalk`). Such a chain
  exists exactly when the hierarchy above the slot is a finite tree, which
  the host guarantees; each loop decreases the length of the chain still
  ahead of it, so it stops at the root. The chain is unique (`WalkUnique`),
  and since it ends at a root it never visits a slot twice (`WalkDistinct`),
  so requiring `IsWalk` rules out a cyclic hierarchy.
- `UIPatches` (`ui_patches.dfy`): the decision logic of the prefix on
  `Sync<string>.Value`'s setter and of the postfix on `Text.OnAwake`. The
  configuration value `Config?.GetValue(enabled)` is an `Option<bool>`
  parameter. The reflection test `IsTextContentField` is a boolean
  parameter. The static cache is an explicit `LabelEnhancer` argument.
  The postfix writes `Content.Value`, and that write goes through the
  patched setter, so the model runs the prefix again on the rewritten
  value (`SetContentValue`). Because a rewritten label rewrites to itself,
  the stored content is the rewrite of the original. As a side effect the
  cache also learns the rewritten label as an identity entry.

Three facts about the code shape the model:

- There is one label template, `symbol(name)`
  (Interface/ProtoFluxNodeDisplayMod.cs:283).
- The filter accepts when any slot from the text's slot up to the root has a
  `ComponentSelector` or is named `Node Browser`
  (Interface/ProtoFluxNodeDisplayMod.cs:207-259).
- The setter prefix rewrites every `Text` content field without consulting
  `ShouldEnhanceText` (Interface/ProtoFluxNodeDisplayMod.cs:355-358); only the
  `OnAwake` postfix filters.

## Model

| member | source | states |
|---|---|---|
| `Translation.Enhance` | Interface/ProtoFluxNodeDisplayMod.cs:280-291 | a name missing from the table is returned as it is; a table key always becomes a longer label (at least two characters more) |
| `Translation.EnhanceLayout` | Interface/ProtoFluxNodeDisplayMod.cs:283 | the label of a table key is exactly its symbol, then `(`, the name and `)` |
| `Translation.EnhanceText` | Interface/ProtoFluxNodeDisplayMod.cs:273-291 | null and empty strings pass through unchanged; any other string stays non-empty and is changed exactly when it is a table key |
| `Translation.ResoniteToNeosWellFormed` | Interface/ProtoFluxNodeDisplayMod.cs:149-205 | no key of the shipped table is empty or contains `(` |
| `Translation.EnhanceHitHasParen` | Interface/ProtoFluxNodeDisplayMod.cs:280-283 | every label made from a table hit contains `(`, so it differs from a name without `(` |
| `Translation.EnhanceIdempotent` | Interface/ProtoFluxNodeDisplayMod.cs:280-291 | for a table whose keys have no `(`, rewriting a rewritten label gives it back unchanged (the second pass takes the identity branch) |
| `Translation.EnhanceTextIdempotent` | Interface/ProtoFluxNodeDisplayMod.cs:271-291 | the same for nullable strings, including null and empty |
| `Translation.NameOfEnhance` | Interface/ProtoFluxNodeDisplayMod.cs:283 | the node name is recovered from its label as the text between the last `(` and the closing `)` |
| `Translation.EnhanceInjective` | Interface/ProtoFluxNodeDisplayMod.cs:283 | two table keys with the same label are the same key |
| `Translation.HitFixtures` | Interface/ProtoFluxNodeDisplayMod.cs:280-286 | `Add` gives `+(Add)`, `Equals` gives `==(Equals)`, `ShiftLeft` gives `<<(ShiftLeft)` |
| `Translation.MissFixtures` | Interface/ProtoFluxNodeDisplayMod.cs:271-291 | `+(Add)` and `Unmapped` give themselves; empty and null pass through |
| `Enhancer.LabelEnhancer.constructor` | Interface/ProtoFluxNodeDisplayMod.cs:146-149 | the enhancer starts with the shipped table and an empty, valid cache |
| `Enhancer.LabelEnhancer.GetEnhancedTextContent` | Interface/ProtoFluxNodeDisplayMod.cs:271-292 | the result is the uncached rewrite whatever the cache holds. Null or empty input is returned unchanged with the cache untouched. A cached input returns its cached value with the cache unchanged. Otherwise exactly the entry for the input is added. No existing entry is overwritten, and the invariant that cached values are the uncached rewrite is kept |
| `NetStrings.AllWhiteSpace` | Interface/ProtoFluxNodeDisplayMod.cs:268 | the front-to-back scan of `IsNullOrWhiteSpace` holds exactly when every character is white space |
| `Eligibility.IsTargetNodeText` | Interface/ProtoFluxNodeDisplayMod.cs:261-269 | true exactly when the content is not null and has a character that is not white space |
| `Eligibility.IsDescendantOfComponentSelector` | Interface/ProtoFluxNodeDisplayMod.cs:229-243 | the loop answers true exactly when some slot from the start to the root, inclusive, carries a `ComponentSelector` |
| `Eligibility.IsDescendantOfNodeBrowser` | Interface/ProtoFluxNodeDisplayMod.cs:245-259 | the loop answers true exactly when some slot from the start to the root, inclusive, is named `Node Browser` |
| `Eligibility.ShouldEnhanceText` | Interface/ProtoFluxNodeDisplayMod.cs:207-227 | false for a null text or a text without a slot; otherwise true exactly when some slot on the walk to the root has a `ComponentSelector` or is named `Node Browser` |
| `Eligibility.WalkUnique` | Interface/ProtoFluxNodeDisplayMod.cs:232-241 | the walk from a slot to the root is determined by the parent links, so the filter's answer depends only on the hierarchy |
| `Eligibility.WalkDistinct` | Interface/ProtoFluxNodeDisplayMod.cs:248-257 | a walk, which ends at a root by definition, never visits a slot twice, so requiring `IsWalk` excludes a cyclic hierarchy |
| `Eligibility.ChildWalk` | Interface/ProtoFluxNodeDisplayMod.cs:229-259 | the walk of a child is the child followed by its parent's walk, and a marker found above the parent is found above the child |
| `UIPatches.SyncStringValuePrefix` | Interface/ProtoFluxNodeDisplayMod.cs:347-372 | always lets the setter proceed. The value and the cache are untouched when the hook is disabled or the field is not a text content. Otherwise the value becomes its rewrite and the cache gains exactly that entry |
| `UIPatches.SetContentValue` | Interface/ProtoFluxNodeDisplayMod.cs:385-390 | assigning a text's content through the patched setter stores the rewrite of the value when enabled, the value itself when disabled |
| `UIPatches.TextOnAwakePostfix` | Interface/ProtoFluxNodeDisplayMod.cs:374-398 | nothing changes when the hook is disabled, the text has no slot or no marker is on its walk. Null or empty content is left as it is with the cache untouched. Otherwise the content becomes the rewrite of the original. The cache then gains the original's entry and the rewritten label's identity entry, and nothing else |

## Left out

- `OnEngineInit` and `ApplyUIPatches`: Harmony patching, loading and saving the configuration are host plumbing; the hooks are modelled as called methods.
- `AnalyzeTextComponent` and `FindMatchingNodeType`: diagnostic reflection over loaded assemblies; `FindMatchingNodeType` is never called.
- `IsTextContentField`: reflection on the host's private `_worker` field; it is the boolean parameter `isTextContentField` of the prefix. For the postfix's own write to a `Text`'s `Content`, `SetContentValue` fixes it to true, since both the `_worker` branch (Interface/ProtoFluxNodeDisplayMod.cs:409-412) and the field-name branch (:417-424) answer true for that field; the rewritten label's identity entry in the cache depends on this.
- `Msg` and `Error` logging, and the `try`/`catch` blocks: host exceptions are not modelled; the prefix's contract keeps the fact that it always returns true.
- Thread safety of the static cache: the source takes no lock and the model is sequential.
- The cache as a process-wide static: it is an explicit `LabelEnhancer` object passed to the hooks.
- `analyze_sync.cs`: a console program dumping host type metadata, with no engine logic.
- Host `Slot`, `Text` and `Sync<string>` internals beyond a slot's name, parent and `ComponentSelector` presence and a text's slot and content.
- Strings are sequences of Unicode code points, whereas .NET strings are UTF-16 code units. Table lookups and comparisons compare whole strings and every .NET white-space character is in the Basic Multilingual Plane, so nothing here depends on the difference.
- `IsTargetNodeText` is private and never called in the source; it is modelled on its own.
