# NEEO–MQTT bridge: activity reconciler

This project models the activity reconciler of `mqtt-neeo-bridge.js` and proves properties of it in Dafny. The bridge connects an MQTT bus to a NEEO remote-control brain. The reconciler has four parts:

- **Name normalisation** (`updateActivityName`). An activity name is lower-cased and snake-cased. If the result is exactly the token `poweroff`, it becomes the sentinel `off`. A nil name stays nil. This is `ActivityName.UpdateActivityName`, built on `ActivityName.Canonical`.
- **Command dispatch** (`startActivity`). A command from the bus is matched against the brain's recipes, in enumeration order, under a `done` flag. `Commands.StartActivity` is the loop, and it is proved equal to the reference definition `Commands.Dispatch`. The result is the log of brain actions fired, `PowerOn(i)` and `PowerOff(i)`, where `i` is the recipe's position in the enumeration.
- **Change-gated state** (`currentActivity` and `updateCurrentActivity`). `Reconciler.Bridge` holds the stored activity and a log of bus publishes. Its method `UpdateCurrentActivity` is proved equal to the pure gate `Reconciler.Update`.
- **Poll decision** (`sdkPollForCurrentActivity`). `Reconciler.Bridge.PollForCurrentActivity` is the loop. It is proved equal to feeding the values of `Reconciler.PollUpdates` through the gate in order.

The brain's network calls are not modelled. Their answers (the recipe list and the powered keys, each of which may be a rejected promise) are a `NeeoBrain.Brain` value passed in. A missing brain is `None`. `NeeoBrain.Enumerated` gives the recipes that `recipeEnumerator` would hand to its callback: none when no brain is connected or `getRecipes` is rejected.

Three library calls have no body in the source, so the model uses stand-ins:

- `Text.Lower` stands in for `toLowerCase` on ASCII letters.
- `Text.SnakeCase` stands in for lodash `snakeCase`. It splits at every ASCII character that is not a letter or digit and joins the words with `_`. This is what lodash's ASCII word pattern does, and lodash uses that pattern only for text made of letters, digits and spaces. For other text lodash uses its Unicode word pattern, which also splits a run of digits from the letters after it. The source lower-cases before it snake-cases, so lodash's splitting at case changes never applies.
- `Uri.DecodeUri` and `Uri.DecodeUriComponent` stand in for the ECMAScript globals. They do percent-decoding as in section 2.1 of RFC 3986. `decodeURI` keeps the escapes of `;/?:@&=+$,#` as written. A malformed escape raises URIError, modelled as `None`.

## Behaviour worth noting

- `Power Off` normalises to `power_off`, not `off`. Only the exact token `poweroff` is rewritten; see `ActivityName.PowerOffNearMiss`.
- An empty command is not a no-op. It normalises to the empty name and powers on a recipe whose name also normalises to the empty name.
- `updateCurrentActivity` compares the raw incoming value with the stored canonical value. So a non-canonical name such as `PlayStation` is published again on every poll; see `Reconciler.RepeatedUpdates`.
- Power-off goes only to the first recipe in enumeration order, and only for the literal command `off`. Spellings such as `OFF` or `PowerOff` normalise to `off` but power nothing off; see `Commands.OnlyLiteralOffPowersOff`.
- The poll reads names with `decodeURIComponent` and dispatch with `decodeURI`. A recipe named `TV%2FAudio` is published as `tv_audio`, but the command `tv_audio` then matches no recipe, because dispatch keeps the `%2F`; see `Reconciler.PublishedNameMissedByDispatch`.

A URIError thrown inside a `forEach` callback ends the whole enumeration. This is because it rejects the promise chain, whose `.catch` only logs it. Each loop stops at the first name it decodes that fails:

- The poll decodes only the names of powered recipes, so a malformed name on a recipe that is not powered does not stop it.
- `startActivity` decodes nothing once `done` is set, so a malformed name after the matching recipe does not matter.

## Model

| member | source | states |
|---|---|---|
| `Text.Lower` | mqtt-neeo-bridge.js:33 | Lower-casing leaves no upper-case letter, keeps the length, and changes nothing in text that is already lower case. |
| `Text.SnakeCase` | mqtt-neeo-bridge.js:33 | The snake-cased name has the same words as the input. |
| `Text.SnakeCaseShaped` | mqtt-neeo-bridge.js:33 | A snake-cased name is snake-shaped: every separator is a `_` strictly inside it, and no two separators are adjacent. With `Text.SnakeCase`'s contract this fixes the result: the input's words joined by single underscores. |
| `Text.JoinShaped` | mqtt-neeo-bridge.js:33 | Words joined by single underscores are snake-shaped, and start with the first word's first letter. |
| `Text.SnakeCaseIdempotent` | mqtt-neeo-bridge.js:33 | Snake-casing a snake-cased name gives the same name back. |
| `Text.SnakeCaseKeepsLowerCase` | mqtt-neeo-bridge.js:33 | Snake-casing lower-case text gives lower-case text. |
| `Text.WordsOfJoin` | mqtt-neeo-bridge.js:33 | Splitting words joined by underscores gives back the same words (the inverse pair behind idempotence). |
| `Uri.DecodePlainText` | mqtt-neeo-bridge.js:54 | A device name with no `%` decodes to itself. |
| `Uri.DecodeFailsAlike` | mqtt-neeo-bridge.js:160 | `decodeURI` and `decodeURIComponent` raise URIError on exactly the same texts. |
| `Uri.DecodeUri` | mqtt-neeo-bridge.js:54 | `decodeURI` raises URIError exactly when `decodeURIComponent` does, and leaves a name without `%` unchanged. |
| `Uri.DecodeUriComponent` | mqtt-neeo-bridge.js:160 | `decodeURIComponent` leaves a name without `%` unchanged. |
| `Uri.EscapedSlash` | mqtt-neeo-bridge.js:54 | An escaped `/` between plain texts is decoded, unless `/` is a kept character, as it is for `decodeURI`. |
| `Uri.EscapedSlashComponentExample` | mqtt-neeo-bridge.js:160 | `decodeURIComponent` turns `TV%2FAudio` into `TV/Audio`. |
| `Uri.EscapedSlashUriExample` | mqtt-neeo-bridge.js:54 | `decodeURI` leaves `TV%2FAudio` unchanged. |
| `ActivityName.UpdateActivityName` | mqtt-neeo-bridge.js:30-39 | A nil name gives nil, and a string gives its canonical form, which is itself canonical. |
| `ActivityName.Canonical` | mqtt-neeo-bridge.js:33-38 | A normalised name has no upper-case letter and is never `poweroff`. |
| `ActivityName.CanonicalKeepsWords` | mqtt-neeo-bridge.js:33-38 | For every name, the canonical form is snake-shaped and keeps the words of the lower-cased name, unless it is `off`. It is `off` only when the lower-cased name is the single word `poweroff` or `off`, so no other token is rewritten. |
| `ActivityName.CanonicalIdempotent` | mqtt-neeo-bridge.js:33-38 | Normalising a normalised name changes nothing, including the `poweroff` to `off` rewrite. |
| `ActivityName.OffIsCanonical` | mqtt-neeo-bridge.js:35-36 | The sentinel `off` normalises to itself. |
| `ActivityName.LivingRoomExample` | mqtt-neeo-bridge.js:33 | `Living Room TV` normalises to `living_room_tv`. |
| `ActivityName.PoweroffSpellings` | mqtt-neeo-bridge.js:33-36 | `POWEROFF`, `PowerOff` and `OFF` all normalise to `off`. |
| `ActivityName.PowerOffNearMiss` | mqtt-neeo-bridge.js:35 | `Power Off` normalises to `power_off`, which the exact-token check does not rewrite. |
| `ActivityName.PlayStationExample` | mqtt-neeo-bridge.js:33 | `PlayStation` normalises to `playstation`, so `PlayStation` is not canonical. |
| `ActivityName.DecodedSlashExample` | mqtt-neeo-bridge.js:33 | `TV/Audio` normalises to `tv_audio`. |
| `ActivityName.EscapedSlashNameExample` | mqtt-neeo-bridge.js:33 | Under the `snakeCase` stand-in, `TV%2FAudio` normalises to `tv_2faudio`, since `%` separates words too. lodash gives `tv_2_faudio`; neither equals `tv_audio`. |
| `NeeoBrain.Enumerated` | mqtt-neeo-bridge.js:128-144 | Recipes are enumerated only when a brain is connected and `getRecipes` answered with exactly those recipes. |
| `Commands.NameAt` | mqtt-neeo-bridge.js:54 | A recipe's name is missing exactly when `decodeURI` raises URIError on it. |
| `Commands.Scan` | mqtt-neeo-bridge.js:49-63 | Every action of a scan over the decoded names from position `i` names a recipe at or after `i`. |
| `Commands.Dispatch` | mqtt-neeo-bridge.js:41-66 | Every action names an enumerated recipe, and a command other than `off` only powers on. |
| `Commands.StartActivity` | mqtt-neeo-bridge.js:41-66 | The `done`-flag loop fires exactly the actions of the reference dispatch; a nil command fires nothing. |
| `Commands.ScanTouchesOneRecipe` | mqtt-neeo-bridge.js:49-63 | From any position, at most two actions fire, all on one recipe at or after that position. A power-off comes before the power-on, and none fires without the flag. |
| `Commands.DispatchTouchesOneRecipe` | mqtt-neeo-bridge.js:49-63 | Dispatch touches at most one recipe. Once an action fires, no other recipe receives one, and two actions are always power-off then power-on of the same recipe. |
| `Commands.ScanPowersOnFirstMatch` | mqtt-neeo-bridge.js:52-63 | Without the power-off flag, the first matching recipe after only decoded, non-matching ones is the one powered on. |
| `Commands.ScanPowersOnOnlyFirstMatch` | mqtt-neeo-bridge.js:52-63 | Without the power-off flag, a recipe that is powered on is such a first match. |
| `Commands.ScanFindsFirstMatch` | mqtt-neeo-bridge.js:52-63 | Both directions together: the scan powers on recipe j iff j is the first match. |
| `Commands.OnlyLiteralOffPowersOff` | mqtt-neeo-bridge.js:47 | A power-off fires iff the raw command is exactly `off` and the first recipe's name decodes. `OFF` and `PowerOff` never power anything off. |
| `Commands.DispatchOff` | mqtt-neeo-bridge.js:56-63 | On `off`, only the first recipe is touched. It is powered off, and also powered on iff its own name normalises to `off`. |
| `Commands.DispatchPowersOnFirstMatch` | mqtt-neeo-bridge.js:54-63 | Any other command powers on recipe j iff j is the first recipe whose decoded, normalised name equals the normalised command, and every earlier name decoded. |
| `Commands.DispatchWithoutMatchDoesNothing` | mqtt-neeo-bridge.js:51-64 | Any other command fires nothing iff no recipe is such a first match. No error is raised. |
| `Reconciler.UpdateKeepsCoherent` | mqtt-neeo-bridge.js:112-118 | The gate keeps the stored value equal to the last publish, with every publish canonical. Afterwards the stored value is the canonical incoming name. The state is unchanged iff the raw incoming value equals the stored one. |
| `Reconciler.Update` | mqtt-neeo-bridge.js:112-118 | One update publishes at most one value, and keeps everything published before. |
| `Reconciler.UpdateAll` | mqtt-neeo-bridge.js:158-162 | A series of updates publishes at most one value per update, and keeps everything published before. |
| `Reconciler.UpdateAllAppend` | mqtt-neeo-bridge.js:158-162 | Two successive series of updates equal one update series over their concatenation. |
| `Reconciler.LastWriteWins` | mqtt-neeo-bridge.js:158-162 | After a non-empty series of updates, the stored value is the canonical form of the last one. The publish log only grows, by at most one canonical entry per update. |
| `Reconciler.UpdateAllKeepsCoherent` | mqtt-neeo-bridge.js:112-118 | A series of updates keeps the stored value equal to the last publish, with every publish canonical. |
| `Reconciler.UpdateAllStoresLast` | mqtt-neeo-bridge.js:158-162 | After a non-empty series of updates, the canonical form of the last one is stored. |
| `Reconciler.RepeatedUpdates` | mqtt-neeo-bridge.js:113-116 | Repeating a canonical name n times is one update. Repeating a non-canonical name publishes its canonical form n times. |
| `Reconciler.SecondUpdateSilentIffCanonical` | mqtt-neeo-bridge.js:113-114 | A second identical update is silent iff the name is canonical. |
| `Reconciler.RepeatedCanonical` | mqtt-neeo-bridge.js:113 | Repeating a canonical name n times is one update. |
| `Reconciler.RepeatedNonCanonical` | mqtt-neeo-bridge.js:113-116 | Repeating a non-canonical name publishes its canonical form n times. |
| `Reconciler.PoweredNames` | mqtt-neeo-bridge.js:158-162 | A poll feeds the gate at most one name per enumerated recipe. |
| `Reconciler.PollUpdates` | mqtt-neeo-bridge.js:146-165 | A poll feeds the gate nothing unless a brain is connected and the power state was answered, and either `off` alone or at most one name per enumerated recipe. |
| `Reconciler.PoweredNamesAppend` | mqtt-neeo-bridge.js:158-162 | Enumerating two recipe lists in turn feeds the gate the first list's names, and then the second list's names only if no powered name in the first failed to decode. |
| `Reconciler.PoweredNamesEndWith` | mqtt-neeo-bridge.js:158-162 | If every powered name decodes, the last name fed to the gate is that of the last powered recipe. |
| `Reconciler.PollWithNothingPowered` | mqtt-neeo-bridge.js:155-156 | A nil or empty powered-key list feeds `off` to the gate once, and `off` becomes the current activity. |
| `Reconciler.PollTakesLastPoweredRecipe` | mqtt-neeo-bridge.js:155-162 | When keys are powered and every powered name decodes, the poll leaves the canonical name of the last powered recipe as the current activity. |
| `Reconciler.PollOfOnePoweredRecipe` | mqtt-neeo-bridge.js:155-162 | From the initial state, a poll over one powered recipe whose name decodes publishes that name's canonical form once. |
| `Reconciler.PublishedNameMissedByDispatch` | mqtt-neeo-bridge.js:54-160 | A powered recipe `TV%2FAudio` is published as `tv_audio` (the poll at line 160 uses `decodeURIComponent`), and the command `tv_audio` then fires nothing (dispatch at line 54 uses `decodeURI`). |
| `Reconciler.PollPublishesDecodedSlash` | mqtt-neeo-bridge.js:160 | The poll publishes `tv_audio` for a powered recipe `TV%2FAudio`. |
| `Reconciler.DispatchMissesDecodedSlash` | mqtt-neeo-bridge.js:54 | The command `tv_audio` fires nothing on the recipe `TV%2FAudio`. |
| `Reconciler.Bridge.constructor` | mqtt-neeo-bridge.js:110 | The bridge starts with nothing stored and nothing published. |
| `Reconciler.Bridge.UpdateCurrentActivity` | mqtt-neeo-bridge.js:112-118 | If the raw value equals the stored one, nothing changes. Otherwise the canonical value is stored and published once. The state invariant is kept. |
| `Reconciler.Bridge.PollForCurrentActivity` | mqtt-neeo-bridge.js:146-165 | The poll loop leaves the state that the reference poll's updates give, applied in order. With no brain, nothing changes. |

## Left out

- MQTT client setup, the subscription, and the message handler that passes the payload to `startActivity` (mqtt-neeo-bridge.js:18-28) are bus I/O. Dispatch takes the command as its input.
- The HTTP listener (mqtt-neeo-bridge.js:71-108) only forwards a path and a value to the bus. It holds no reconciliation logic.
- `smartPublish` belongs to a helper library that is not part of this model. A publish is an entry appended to the bridge's publish log.
- The promise chains, logging, and the repeating one-second timer are not modelled. Neither are overlapping poll ticks racing on `currentActivity`. Each poll is modelled as running to completion on its own.
- Brain discovery and environment configuration (mqtt-neeo-bridge.js:14-15, 168-181) are left out, as are the NEEO SDK calls. Their answers are inputs.
- `Text.SnakeCase` does not model lodash's Unicode word pattern, which splits between letters and digits (`abc123` gives `abc_123` in lodash), its removal of apostrophes, its deburring of Latin letters, or Unicode word rules. These are library behaviour whose source is not part of this model.
- `ActivityName.EscapedSlashNameExample` states the stand-in's value `tv_2faudio`. lodash gives `tv_2_faudio`: the `%` makes it use its Unicode word pattern, which splits `2` from `faudio`. The conclusion of `Reconciler.PublishedNameMissedByDispatch` holds for both, since neither equals `tv_audio`.
- `Text.Lower` lower-cases ASCII letters only. Unicode case mapping is left out.
- `Uri.DecodeUri` and `Uri.DecodeUriComponent` treat every escape of a byte at or above 0x80 as URIError. ECMAScript instead decodes well-formed UTF-8 sequences, so names with non-ASCII escapes are not modelled faithfully.
- Values that are not strings (an undefined device name turned into the text `undefined`) are not modelled. Device names and keys are strings.
- The unhandled rejection of `getRecipesPowerState` is modelled only as "nothing changes".
