# Atestamint home page — a Dafny model

This project models the decision logic of the Atestamint front end's home page
(`pages/home.tsx`). The page lists the NFT collections owned by the connected
wallet. Each row has a button that sends a `vote` (attestation) transaction to
the collection's vault contract. The modelled rules are:

- the classification of a failed transaction's error message into one of three labels;
- the button's label and colour, derived from the transaction's loading, success and error flags;
- the lookup of a row's vault address in the full project list;
- the image-source conditional of a row;
- the row's mount effect, which classifies an error and appends the collection to the
  attested-collections cache in browser storage;
- the page's mount effect, which gives each owned project the image of its entry in the
  full project list, appends the cached "to attest" collections and ends the loading state.

Modules, one per component:

- `Wrappers`: the `Option` type.
- `Text`: `String.prototype.includes`, proved equal to "occurs at some position".
- `Records`: the JavaScript values the page handles (`JsValue`: a string, `null` or
  `undefined`), the indexer's `Project` and `Vault` records, the `Collection` rows, and
  `Array.prototype.find` by id (`FindProject`).
- `Storage`: the three browser-storage keys as a class, with the read-push-write update
  of the attested list.
- `AttestCollection`: the row component.
- `HomePage`: the page component and its merge.

Inputs from outside the page are parameters of the model:

- the results of the two indexer fetches;
- the wallet hook's transaction flags and error text;
- the contents of browser storage.

Both React effects have an empty dependency list, so they run once, when the
component mounts. The model states them as methods that run with the values of that
moment. `AttestCollection.MountThenFail` shows a consequence. A row mounted while its
transaction was not in error keeps "Already attested." as its error text. If the
transaction fails later, the button shows that text, not a classified message.

Two consequences of the code as written:

- The address is pushed onto the attested cache without checking, so two successes for
  the same collection store it twice (`Storage.AttestTwice`,
  `Storage.BrowserStorage.RecordAttested`).
- The attested cache is written only by the row's mount effect (pages/home.tsx:31-76,
  dependencies `[]`), so only when the transaction had already succeeded at mount
  (`AttestCollection.AttestRow.RunMountEffect`).

## Model

| member | source | states |
|---|---|---|
| Text.Includes | pages/home.tsx:36-38 | `includes` holds exactly when the substring occurs at some position; the empty substring occurs everywhere |
| Text.IncludesInfix | pages/home.tsx:36-38 | a string built as prefix + substring + suffix includes the substring |
| Text.NotIncludesWithoutHead | pages/home.tsx:36-38 | a string without the substring's first character does not include the substring |
| Records.FindProject | pages/home.tsx:15-17 | `find` by id returns the index of the first project whose id is the address, and nothing exactly when no project has that id |
| AttestCollection.ClassifyError | pages/home.tsx:36-42 | the label is "Already voted." iff the message includes "Vote_AlreadyVoted"; "User denied tx." iff it includes "User denied" but not "Vote_AlreadyVoted"; "Unknown error." iff it includes neither |
| AttestCollection.AlreadyVotedWins | pages/home.tsx:36-37 | any message containing "Vote_AlreadyVoted" is "Already voted.", even one that also contains "User denied" |
| AttestCollection.UserDeniedRecognised | pages/home.tsx:38-39 | a message containing "User denied", with no 'V' around it that could start the already-voted reason, is "User denied tx." |
| AttestCollection.UnknownWithoutMarkers | pages/home.tsx:40-42 | a message in which neither marker can start is "Unknown error." |
| AttestCollection.ButtonLabel | pages/home.tsx:152-158 | "Attesting..." whenever loading, whatever the other flags; otherwise "Attested!" on success; otherwise the held error text on error; otherwise "Attest" |
| AttestCollection.ButtonColour | pages/home.tsx:148-150 | red exactly when in error; green exactly when succeeded and not in error; slate exactly when neither |
| AttestCollection.LabelAndColourDisagree | pages/home.tsx:148-158 | with success and error both set and not loading, the button is red but reads "Attested!" |
| AttestCollection.LabelAndColourAgree | pages/home.tsx:148-158 | when not loading and at most one of success or error is set, the colour is red, green or slate exactly when the label is an error text, "Attested!" or "Attest" |
| AttestCollection.VaultAddress | pages/home.tsx:15-17 | the vault id of the first project whose id equals the edition address; nothing exactly when no project matches |
| AttestCollection.ImageSource | pages/home.tsx:91-95 | the image source is always the collection's `imageURI`, so the "nftree.jpg" branch cannot be taken (the same guard is repeated at lines 103-107) |
| AttestCollection.ImageSourceIntended | pages/home.tsx:91-95 | with the guard joined by `&&`, the source is always a non-empty string: a usable URI unchanged, otherwise "nftree.jpg" |
| AttestCollection.EmptyImageUriNotReplaced | pages/home.tsx:103-107 | an empty `imageURI` is passed through as written, but is replaced by "nftree.jpg" under the intended guard |
| AttestCollection.AttestRow.constructor | pages/home.tsx:13 | a new row holds "Already attested." as its error text |
| AttestCollection.AttestRow.RunMountEffect | pages/home.tsx:31-59 | on error the error text becomes the classified message, otherwise it is kept; on success "isSuccess" is set and the edition address is appended to the attested list, otherwise storage is untouched; the "to attest" key never changes |
| AttestCollection.AttestRow.Label | pages/home.tsx:152-158 | the row's label is "Attesting..." while loading; when only the error flag is set, it is one of the four error texts |
| AttestCollection.MountThenFail | pages/home.tsx:31-43 | a row mounted while not in error shows "Already attested." when the transaction later fails |
| AttestCollection.MountInError | pages/home.tsx:32-43 | a row mounted while in error shows the classified message, never the default text |
| Storage.BrowserStorage.AttestedList | pages/home.tsx:47-49 | a missing "attestedCollectionsCache" key reads as the empty list; otherwise the stored list is read |
| Storage.BrowserStorage.ToAttestList | pages/home.tsx:178-180 | a missing "collectionsToAttestCache" key reads as the empty list; otherwise the stored list is read |
| Storage.BrowserStorage.RecordAttested | pages/home.tsx:45-56 | "isSuccess" becomes "true"; the new list is the old list plus the edition address: one longer, earlier entries unchanged, the address last, its number of occurrences one higher (no deduplication); the other key is unchanged |
| Storage.AttestTwice | pages/home.tsx:47-56 | two successes for the same collection leave its address in the list twice |
| HomePage.AttachImages | pages/home.tsx:182-191 | the `map` succeeds exactly when every owned project has an entry in the full list; the result then has the same length, and each element is its owned entry with every field kept except `imageURI`, which is taken from the first project with a matching id |
| HomePage.MergeCollections | pages/home.tsx:182-193 | on success the merged list has length owned + cached; the owned entries come first, in order, with their images attached; the cached entries follow unchanged and in order |
| HomePage.HomePageState.constructor | pages/home.tsx:168-170 | a mounted page is loading and both of its lists are empty |
| HomePage.HomePageState.RunMountEffect | pages/home.tsx:172-197 | the full list is always stored; when the merge succeeds the merged list is stored and loading ends; when a lookup misses, loading and the owned list stay as they were |
| HomePage.HomePageState.Rows | pages/home.tsx:214-254 | the table is shown exactly when the page is not loading, and then it shows the merged list |
| HomePage.MountPage | pages/home.tsx:172-197 | after mounting, the table appears exactly when every owned project matches a project. It then holds the owned projects in order (same address and token id), followed by the cached collections |

## Findings

| source | as written | input that shows it | evidently intended | confidence | as-written member | corrected member |
|---|---|---|---|---|---|---|
| pages/home.tsx:91-95 (and 103-107) | `x !== "" \|\| x !== null \|\| x !== undefined` is true for every value, so `x` is always used | `imageURI` equal to `""`: the image source is `""` rather than "nftree.jpg" | join the three tests with `&&`, falling back to "nftree.jpg" for an empty, `null` or missing URI | high; not executed | AttestCollection.ImageSource, AttestCollection.EmptyImageUriNotReplaced | AttestCollection.ImageSourceIntended |

## Left out

- The wallet hooks (`useAccount`, `useContractWrite`), the vault ABI and the transaction's behaviour are foreign library code. The transaction's flags and error text are parameters.
- The indexer queries `getAllProjects` and `getAllProjectsByOwner` are not part of this model. Their results are parameters.
- A failed indexer fetch is not modelled, and neither is the page staying in its loading state forever after one: the fetches' results are parameters, so the model only sees fetches that returned.
- The axios probe of the image URL and its replacement of `imageURI` (pages/home.tsx:61-74) are network behaviour. The image element's `onError` fallback (109-113) is browser behaviour.
- The JSON encoding of browser storage is left out. Each key holds a decoded value or nothing.
- Races between rows that write the attested cache at the same time are left out. The model runs one effect at a time.
- React's scheduling is left out. Each effect is a method run once, at mount. Re-rendering is not modelled.
- The `parseInt(tokenId).toString()` conversion in the click handler (pages/home.tsx:140) follows the JavaScript runtime and is left out, together with the click handler's call.
- The JSX layout, styling, `TableShimmer`, `HomeCTA`, `Layout`, the details link and console logging are left out. Only which rows are shown is modelled, in `HomePage.HomePageState.Rows`.
- A missing match in the merge is modelled as a fault of the whole effect (`None`), not as the JavaScript `TypeError` it raises.
- JavaScript objects are modelled as records with fixed fields (edition address, token id, image URI), not as open property bags.
