# insertCommas — a verified model of the client's number display

The game client formats numbers for display with `DisplayHandler.insertCommas`.
The routine takes a string of characters and works in two stages:

1. **Grouping.** A `for` loop walks an index `j` from `length-3` down by three
   while `j > 0` and inserts a comma at `j`. Each insertion lands left of the
   earlier ones, so `j` always indexes the original text. The result is the
   input in groups of three counted from the right, with a leading group of
   one to three characters.
2. **Post-processing by length.** Grouped text longer than 8 characters is
   abbreviated to the colour tag `@gre@`, the grouped text without its last
   five characters, and `m`. Grouped text of 5 to 8 characters is rebuilt with
   a comma at `len-4`. Shorter text is returned as it is.

The Dafny model (`display_handler.dfy`, module `DisplayHandler`) keeps these
stages apart:

- `Grouped` is the recursive specification of the loop. `GroupedCharAt` is an
  independent description of the same layout, position by position, with no
  recursion. `Ungroup` is its inverse by position.
- `Finish` is the post-processing as written, including the rebuild at
  `len-4`. `Formatted` composes the two stages.
- `InsertCommas` is the routine itself. It keeps the source's loop over a
  string variable and its `if`/`else if` chain, and is proved equal to
  `Formatted`.

The routine never reads the characters as digits, so the model works on any
`string`. Where a lemma needs more, it says so in its `requires`: only
`WithoutCommasGrouped` does, asking that the input contain no comma.

## Model

| member | source | states |
|---|---|---|
| `DisplayHandler.InsertCommas` | Client/src/org/rscdaemon/client/DisplayHandler.java:7-18 | The result is `Finish(Grouped(str))`. Inputs of at most 3 characters come back unchanged. Inputs of 4 to 6 characters get plain grouping, one character longer. Inputs of 7 or more get `@gre@` + the grouped text without its last 5 characters + `m`. The loop invariant: the unprocessed prefix `[0, j+3)` equals the original, and the text after it is the grouped tail. |
| `DisplayHandler.GroupedStep` | Client/src/org/rscdaemon/client/DisplayHandler.java:9-10 | One loop pass at position `j > 0`: grouping the prefix of length `j+3` is grouping the prefix of length `j`, then a comma, then the three characters at `j`. |
| `DisplayHandler.Grouped` | Client/src/org/rscdaemon/client/DisplayHandler.java:9-11 | Grouping only adds characters; it never makes the text shorter. |
| `DisplayHandler.GroupedLength` | Client/src/org/rscdaemon/client/DisplayHandler.java:9-11 | The loop inserts exactly `(n-1)/3` commas into an input of length n ≥ 1, and none into the empty input, so the grouped length is `n + (n-1)/3`. |
| `DisplayHandler.GroupedLayout` | Client/src/org/rscdaemon/client/DisplayHandler.java:9-11 | The grouped text has length `n + (n-1)/3`, and every position holds the character the closed-form layout gives: the leading group, then blocks of a comma and three original characters. |
| `DisplayHandler.CommaPositions` | Client/src/org/rscdaemon/client/DisplayHandler.java:9-10 | The k-th inserted comma is at `Lead + 4k`. It is followed by exactly the three original characters at `Lead + 3k` to `Lead + 3k + 2`, before the next comma or the end. |
| `DisplayHandler.LeadingGroup` | Client/src/org/rscdaemon/client/DisplayHandler.java:9-10 | For a non-empty input the leading group has 1 to 3 characters and holds the input's first characters unchanged. |
| `DisplayHandler.UngroupGrouped` | Client/src/org/rscdaemon/client/DisplayHandler.java:10 | Removing the inserted commas by position gives back the input exactly. The original characters keep their order. |
| `DisplayHandler.GroupedInjective` | Client/src/org/rscdaemon/client/DisplayHandler.java:9-11 | Two inputs with the same grouped text are equal. |
| `DisplayHandler.WithoutCommasGrouped` | Client/src/org/rscdaemon/client/DisplayHandler.java:9-11 | For an input that contains no comma, deleting every comma from the grouped text gives back the input. |
| `DisplayHandler.Finish` | Client/src/org/rscdaemon/client/DisplayHandler.java:12-16 | Past 8 characters: one character longer; starts with `@gre@`, then the text without its last 5 characters, then ends with `m`. From 5 to 8 characters: same length; a comma at `len-4`; every other character unchanged. At most 4 characters: unchanged. Every slice is in range for every input. |
| `DisplayHandler.BranchByInputLength` | Client/src/org/rscdaemon/client/DisplayHandler.java:9-15 | The abbreviating branch is taken exactly when the input has at least 7 characters. The rebuild branch condition (grouped length > 4) holds exactly when the input has at least 4 characters. |
| `DisplayHandler.RebuildIsIdentity` | Client/src/org/rscdaemon/client/DisplayHandler.java:14-15 | When the grouped text has 5 to 8 characters, its character at `len-4` is already the last inserted comma, so the rebuild returns it unchanged. |
| `DisplayHandler.ShortUnchanged` | Client/src/org/rscdaemon/client/DisplayHandler.java:9-17 | Inputs of 0 to 3 characters are returned unchanged. |
| `DisplayHandler.MediumIsGrouped` | Client/src/org/rscdaemon/client/DisplayHandler.java:9-15 | Inputs of 4 to 6 characters get plain comma grouping: the input with one comma before its last three characters. |
| `DisplayHandler.LongIsAbbreviated` | Client/src/org/rscdaemon/client/DisplayHandler.java:12-13 | For inputs of at least 7 characters the result is `@gre@` + the grouped text without its last 5 characters + `m`, one character longer than the grouped text. That equals `@gre@` + the grouped millions part + a comma + the first two characters of the thousands group + `m`. |

## Left out

- `String.valueOf(str)`: a Java `null` argument becomes the text `"null"`. Dafny strings are never null, so the model treats this call as the identity.
- Java strings are sequences of UTF-16 code units. The model uses Dafny's `string` (`seq<char>`). The routine only slices and concatenates, so only the meaning of a "character" differs. The model therefore groups by Unicode code points where Java counts UTF-16 code units: for input with a character outside the Basic Multilingual Plane, Java can place a comma inside a surrogate pair. For `"1😀23"` Java inserts the comma at code unit 2, between the emoji's two code units, while the model inserts it after `"1"`.
- The loop counter is a 32-bit `int`. It starts at `length-3` and only decreases while positive, so it cannot wrap around. The model uses unbounded integers.
- The `@gre@` prefix is a colour tag that the client's text renderer consumes. The model treats it only as five literal characters (`GreenTag`).
- The server lifecycle, scheduled events and player attribute store in the rest of the repository (for example `Flat WK Server/src/org/rscdaemon/server/Server.java`) are not part of this model.
- Grouped: its own contract only says that grouping never shortens the text. The exact length and layout are stated by `GroupedLength` and `GroupedLayout` instead, which keeps each unfolding of the function cheap to verify.
