# Xpose hide-list store and render guard, in Dafny

Xpose is a Minecraft client mod that stops chosen blocks from being drawn. All of its logic sits in two places, and this project models both:

- `RevealState` is the hide-list store. It keeps an on/off flag and a set of block identifiers (`namespace:path`). User input is normalised before it is stored or removed: it is trimmed, blank input is refused, and `minecraft:` is put in front when no namespace is given. An identifier is only added if the block registry knows it. The store gives a sorted listing and a membership test, `shouldHide`, that fails open. It is saved to and loaded from a JSON array of strings. Loading skips entries that do not normalise or name unknown blocks, and a file that is not an array yields an empty store.
- `BlockModelRendererMixin.onRender` is the render guard. It runs at the start of every baked-model block render. It cancels the render of a hidden block. When something it calls throws past it, it turns the feature off.

Files:

- `optional.dfy`: `Option`, standing for Java's nullable references.
- `text.dfy`: `String.trim` (strips every character up to U+0020 from both ends) and the `String.compareTo` order, with its totality, antisymmetry and transitivity.
- `sorting.dfy`: `Collections.sort`, written as insertion sort. It is proved ascending, a permutation of its input, and duplicate-free when its input is. A second lemma shows that an ascending, duplicate-free listing of a set is unique.
- `identifiers.dfy`: `Identifier`, its `toString`, the split at the first `:`, `normalize` and `normalizeIdString`.
- `reveal_state.dfy`: the class `RevealState`, with fields `enabled` and `ids` that its methods update in place. It also holds the configuration file (`ConfigFile`) and the load/save round trip.
- `render_hook.dfy`: `CallbackInfo`; `Decide`, the hook's decision as a function; and `OnRender`, the method that carries it out on the callback and on the store's flag.

The outside world is passed in as parameters:

- Minecraft's identifier character rules are the predicate `valid`, kept as the store's `rules`.
- The block registry (`Registries.BLOCK.getOrEmpty(id).isPresent()`) is `registered`.
- `Registries.BLOCK.getId(block)` is `getId`, which returns `Resolved(identifier or null)` or `Threw`.
- `state.getBlock()` is `getBlock`, which returns `Returned(block or null)` or `Thrown`.
- The file is a `ConfigFile` object holding its already-parsed content: `Missing`, or `Present` with `NotArray` or `Array(strings)`. It has a `failing` flag under which every read, write and directory creation throws `IOException`.

The class comment of the Mixin (`BlockModelRendererMixin.java:20-23`) says that its try/catch makes unexpected errors disable the tool. The code does this for fewer errors than that comment suggests, and the model follows the code:

- A fault inside the identifier lookup is caught by `shouldHide` itself (`RevealState.java:42-45`). The hook then does not cancel, and the flag does not change.
- Only a fault that reaches the hook's own catch (`BlockModelRendererMixin.java:39-41`), such as one from `state.getBlock()`, turns the feature off.

## Model

| member | source | states |
|---|---|---|
| Text.Trim | src/main/java/com/example/xpose/RevealState.java:77 | `trim` leaves a string with no strippable character at either end. The result is empty exactly when the input is blank. An already trimmed string is unchanged. |
| Text.TrimCuts | src/main/java/com/example/xpose/RevealState.java:77 | The result of `trim` is a contiguous piece of the input with only blank characters before and after it. With `Trim`'s own contract, this fixes the result: a blank prefix and a blank suffix are cut off, and nothing else. |
| Text.TrimStartCuts | src/main/java/com/example/xpose/RevealState.java:77 | Trimming the front removes a blank prefix only. |
| Text.TrimEndCuts | src/main/java/com/example/xpose/RevealState.java:77 | Trimming the back removes a blank suffix only. |
| Text.LexLeFirstDifference | src/main/java/com/example/xpose/RevealState.java:66 | `LexLe`, the model of `a.compareTo(b) <= 0`, holds exactly when `a` is a prefix of `b` or, at the first index where they differ, `a` has the smaller character. This is how `String.compareTo` is specified. |
| Text.TrimKeepsAbsent | src/main/java/com/example/xpose/RevealState.java:77-79 | Trimming adds no character, so a raw string without `:` still has none after `trim`. |
| Text.LexLeTotal | src/main/java/com/example/xpose/RevealState.java:66 | Any two strings are comparable in `compareTo` order. |
| Text.LexLeAntisymmetric | src/main/java/com/example/xpose/RevealState.java:66 | Two strings that are each at most the other are equal. |
| Text.LexLeTransitive | src/main/java/com/example/xpose/RevealState.java:66 | The `compareTo` order is transitive. |
| Sorting.Insert | src/main/java/com/example/xpose/RevealState.java:66 | Inserting into an ascending list keeps it ascending. The result has the old elements plus the new one. A new element not already present keeps the list duplicate-free. |
| Sorting.Sort | src/main/java/com/example/xpose/RevealState.java:66 | `Collections.sort` gives an ascending permutation of its input. Distinct input gives distinct output. |
| Sorting.ListingUnique | src/main/java/com/example/xpose/RevealState.java:63-68 | Two ascending, duplicate-free lists with the same elements are identical. So the listing does not depend on the order in which the set is visited. |
| Identifiers.ToStringLayout | src/main/java/com/example/xpose/RevealState.java:65 | `Identifier.toString` (`ToString`) is the namespace, then `:`, then the path. `SplitToString` and `ToStringInjective` below show it loses nothing when the namespace has no `:`. |
| Identifiers.Qualify | src/main/java/com/example/xpose/RevealState.java:79 | The qualified string always contains `:`. A string that already has one is left unchanged. |
| Identifiers.QualifyDefault | src/main/java/com/example/xpose/RevealState.java:79 | A name without `:` becomes the identifier with namespace `minecraft` and the name as its path. |
| Identifiers.Split | src/main/java/com/example/xpose/RevealState.java:81 | Splitting a string at its first `:` gives an identifier whose namespace has no `:` and whose `toString` is the string. |
| Identifiers.SplitToString | src/main/java/com/example/xpose/RevealState.java:81 | An identifier whose namespace has no `:` is recovered by splitting its `toString`. |
| Identifiers.ToStringInjective | src/main/java/com/example/xpose/RevealState.java:65 | Two identifiers whose namespaces have no `:` and whose `toString` forms are equal are the same identifier. |
| Identifiers.Parse | src/main/java/com/example/xpose/RevealState.java:80-84 | On success, the identifier constructor gives an identifier that the rules accept, that has no `:` in its namespace, and whose `toString` is the input. |
| Identifiers.ParseComplete | src/main/java/com/example/xpose/RevealState.java:80-84 | The constructor fails only when the rules reject the one identifier the string spells. |
| Identifiers.Normalize | src/main/java/com/example/xpose/RevealState.java:75-85 | Null input and blank input give null. A success is accepted by the rules and has its `toString` equal to the trimmed input, with `minecraft:` in front when the input has no `:`. |
| Identifiers.NormalizeComplete | src/main/java/com/example/xpose/RevealState.java:75-85 | A non-null, non-blank input fails only when the rules reject the identifier it spells. With `Normalize`, this gives the three failure cases (null, blank, rejected) and nothing else. |
| Identifiers.NormalizeRejected | src/main/java/com/example/xpose/RevealState.java:80-84 | When the rules reject the identifier a string spells, the constructor's exception is caught and `normalize` returns null. |
| Identifiers.NormalizeCanonical | src/main/java/com/example/xpose/RevealState.java:75-85 | The `toString` of any normalised identifier normalises back to that identifier. |
| Identifiers.NormalizeIdempotent | src/main/java/com/example/xpose/RevealState.java:75-85 | Normalising the string form of a normalisation result gives the same result. |
| Identifiers.DefaultNamespaceEquivalence | src/main/java/com/example/xpose/RevealState.java:79 | A non-blank name without `:` normalises the same as `minecraft:` followed by the trimmed name. |
| Identifiers.StoneIsMinecraftStone | src/main/java/com/example/xpose/RevealState.java:79 | `normalize("stone") == normalize("minecraft:stone")`. |
| Identifiers.NormalizeIdString | src/main/java/com/example/xpose/RevealState.java:70-73 | When the input does not normalise, the input is returned unchanged, null included. Otherwise the result is the `toString` of the normalised identifier: a trimmed string containing `:` that normalises to the same identifier as the input. |
| Store.Admitted | src/main/java/com/example/xpose/RevealState.java:101-112 | One array element contributes at most one identifier. An identifier is contributed exactly when the element normalises to it and the registry has it. |
| Store.Kept | src/main/java/com/example/xpose/RevealState.java:100-113 | The set the load loop builds, element by element. Every identifier in it is registered, and it has no more identifiers than the array has elements. `KeptMembers` describes its members. |
| Store.KeptMembers | src/main/java/com/example/xpose/RevealState.java:100-113 | After loading an array, an identifier is in the set exactly when some element normalises to it and the registry has it. |
| Store.LoadOfListing | src/main/java/com/example/xpose/RevealState.java:99-113 | Loading an array whose elements are exactly the string forms of a set of normalised identifiers gives back that set, provided the registry has each identifier. |
| Store.LoadExample | src/main/java/com/example/xpose/RevealState.java:100-113 | Loading `["stone", "invalid!!", "minecraft:dirt"]`, where the rules reject `minecraft:invalid!!`, gives exactly `{minecraft:stone, minecraft:dirt}`. |
| Store.ListingStep | src/main/java/com/example/xpose/RevealState.java:65 | Appending the string form of an identifier not yet listed keeps the list to one distinct entry per identifier. |
| Store.RevealState.constructor | src/main/java/com/example/xpose/RevealState.java:23-24 | The store starts disabled, with an empty set. |
| Store.RevealState.SetEnabled | src/main/java/com/example/xpose/RevealState.java:33 | After `setEnabled(v)`, `isEnabled()` returns `v` and the set has not changed. |
| Store.RevealState.ShouldHide | src/main/java/com/example/xpose/RevealState.java:37-46 | The result is false when the store is disabled, when the block is null, or when the lookup throws. Otherwise it is true exactly when the lookup gives a non-null identifier that is in the set. The function reads state and changes nothing. |
| Store.RevealState.AddByString | src/main/java/com/example/xpose/RevealState.java:48-55 | The result is false and the set unchanged when the input does not normalise or the registry lacks the block. Otherwise the set becomes the old set plus the identifier, and the result is true exactly when the identifier was absent, which is also when the size grows by one. The flag is untouched and every stored identifier stays normalised. |
| Store.RevealState.RemoveByString | src/main/java/com/example/xpose/RevealState.java:57-61 | The result is false and the set unchanged when the input does not normalise. Otherwise the set becomes the old set minus the identifier, and the result is true exactly when the identifier was present, which is also when the size shrinks by one. |
| Store.RevealState.StringForms | src/main/java/com/example/xpose/RevealState.java:64-65 | The loop over the set yields the string forms of exactly the stored identifiers, one per identifier and without duplicates. |
| Store.RevealState.ListIds | src/main/java/com/example/xpose/RevealState.java:63-68 | The listing is ascending and duplicate-free, holds exactly the string forms of the stored identifiers, and is as long as `getHiddenCount()`. It changes nothing. |
| Store.RevealState.Save | src/main/java/com/example/xpose/RevealState.java:119-127 | On success the file holds an array that is exactly the listing. When the filesystem throws, the result is `IoFailed`. The store is untouched either way. |
| Store.RevealState.AdmitOne | src/main/java/com/example/xpose/RevealState.java:101-112 | One array element is added exactly when it normalises and names a registered block. Otherwise the set is unchanged. Every stored identifier stays normalised. |
| Store.RevealState.AddAdmitted | src/main/java/com/example/xpose/RevealState.java:100-113 | The loop over the array adds exactly the elements that normalise and name registered blocks, and every stored identifier stays normalised. |
| Store.RevealState.Load | src/main/java/com/example/xpose/RevealState.java:88-117 | The set is cleared first and stays empty on any I/O failure. A missing file is created holding `[]`. A file that is not an array leaves the set empty without failing. An array leaves the set equal to the elements that normalise and name registered blocks. The flag is untouched, and an existing file is not changed. |
| Store.SaveThenLoad | src/main/java/com/example/xpose/RevealState.java:88-127 | Saving a store and loading the file into a fresh store reproduces the same set, provided the registry has every saved identifier. |
| RenderHook.CallbackInfo.Cancel | src/main/java/com/example/xpose/mixin/BlockModelRendererMixin.java:37 | `ci.cancel()` marks the render as cancelled. |
| RenderHook.Decide | src/main/java/com/example/xpose/mixin/BlockModelRendererMixin.java:33-42 | A null state means no cancel and an unchanged flag. When `getBlock` returns, its result goes to `shouldHide`, null included. The render is cancelled exactly when `shouldHide` says so, so a null block is never cancelled. The flag is unchanged, including when the lookup throws. A throw from `getBlock` means no cancel and the flag false afterwards. The flag never goes from false to true, and a cancel happens only while enabled. |
| RenderHook.OnRender | src/main/java/com/example/xpose/mixin/BlockModelRendererMixin.java:30-43 | The hook carries out `Decide`: the callback is cancelled exactly when `Decide` says so (or it already was), the flag afterwards is `Decide`'s, and the identifier set is never changed. |

## Left out

- Concurrency: the set backed by a `ConcurrentHashMap` and the `volatile` flag (`RevealState.java:23-24`) are modelled sequentially. Each operation is a single atomic step.
- JSON text: Gson's parsing, pretty-printing and escaping, and the unused `IdentifierGsonAdapter` (`RevealState.java:130-140`), are not modelled. The file holds its already-parsed value. `NotArray` covers both a JSON value that is not an array and text that does not parse, since both are caught at line 114 with the same outcome.
- Non-string array elements: `getAsString` on such an element may throw something the catch at line 114 does not handle, leaving a prefix of the array loaded. Array elements here are always strings.
- Minecraft's identifier rules: the allowed characters are library internals, not in the code shown here, and are the `valid` parameter. An identifier is split at its first `:`.
- Identifiers.Split: Minecraft's rule that an empty namespace before `:` becomes `minecraft` is not modelled. A predicate can only accept or reject, so it cannot rename. `:stone` splits into the empty namespace and the path `stone`, and `valid` then accepts it as that identifier or rejects it. It is never rewritten to `minecraft:stone`.
- Registry lookups (`Registries.BLOCK.getId`, `getOrEmpty`): these are foreign calls, passed in as `getId` and `registered`.
- Filesystem: `Files.exists`, directory creation, `readString` and `writeString` are reduced to the file's content plus one `failing` flag, and the I/O exception becomes `IoFailed`.
- Store.RevealState.Save: after a failed write, the file's content is left unspecified, because an interrupted `writeString` may leave anything behind.
- Logging: every logger call is left out. The logger is a side channel only.
- String order: `compareTo` compares UTF-16 code units, while the model compares characters (Unicode scalar values). The two orders differ only between characters above U+FFFF and characters in U+E000–U+FFFF, and block identifiers are ASCII.
- `isEnabled` and `getHiddenCount`: these are plain getters (`IsEnabled`, `HiddenCount`) with no contract of their own. They appear in the contracts of `SetEnabled` and `ListIds`.
- `Xpose.java`: command registration, chat feedback, and the caller's rule to save only after a successful add or remove, are UI glue. They are not part of this model.
