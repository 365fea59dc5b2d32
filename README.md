# User form: validation schema, strength indicator and technology list

A model of the home page of a small form demo. The page collects a name, an
email address, a password and a list of technologies. On submit, a schema
validates and transforms the values. A password-strength indicator is shown
next to the password field. Buttons add and remove technology rows.

The model has five modules, one per concern:

- `Text` (`text.dfy`): the JavaScript string operations the schema calls.
  These are `trim`, `split` on one character, `join`, `toLowerCase`, the
  first-letter `toLocaleUpperCase` and `endsWith`. ASCII casing is used.
  `trim` removes the full ECMAScript set of whitespace and line terminators.
- `Schema` (`schema.dfy`): the schema object and its resolver.
  - Each field has a function that lists its issues in declaration order.
    The name transform is `TransformName`.
  - `FirstErrors` keeps the first message per field path.
  - `Validate` models one submit. It returns the transformed values
    (`Accepted`), the resolver's error map (`Rejected`), or `Thrown`.
    `Thrown` is the exception the name transform raises when it reaches an
    empty word.
  - `Displayed` is the part of the error map the page renders. The name,
    email, password, list and row-title inputs each have a message element.
    A row's knowledge input has none, so a knowledge error is recorded in
    the map but never displayed.
- `SchemaProperties` (`schema_properties.dfy`): what the schema promises,
  as lemmas.
- `Strength` (`strength.dfy`): the lookahead pattern behind the indicator.
  - It is modelled as written: unanchored, and its `.` does not match a
    line terminator.
  - `HasEveryClass` is a separate reference definition: one lower-case
    letter, one upper-case letter, one digit, one other character, and
    length at least 8.
- `TechList` (`techlist.dfy`): the field array, as a class.
  - Its rows are a `seq` of `Row(id, tech)`. The `id` is the key a row is
    rendered under.
  - The Add button appends an empty row under a fresh key.
  - A row's Remove button deletes that position.

How each rule is modelled:

- Name.
  - The required check looks at the raw string.
  - The transform runs only when that check passes.
  - The transform trims, splits on single spaces and upper-cases each
    word's first character. If a word is empty, `word[0]` is undefined and
    the call throws. Examples: a name of only spaces, or two spaces in a
    row.
  - The throw escapes the whole parse, whatever the other fields hold.
- Email.
  - The required, format and domain rules all run, in that order, even
    after one fails.
  - The domain rule sees the lower-cased address.
  - The error map holds the first failing rule.
- Techs.
  - The length rule comes first. It counts the raw rows.
  - Then each row is checked: title first, then the two knowledge bounds.
- Two behaviours of the code are easy to miss:
  - A name of only whitespace passes the required rule and then throws in
    the transform (index.tsx:20-26).
  - The two-row minimum counts every row, not only the rows that pass
    their own checks (index.tsx:46).

## Model

| member | source | states |
|---|---|---|
| `Text.Trim` | src/pages/home/index.tsx:23 | The result is empty or starts and ends with a non-whitespace character. It is empty exactly when the input is all whitespace. It is the input minus leading and trailing whitespace. |
| `Text.TrimOfTrimmed` | src/pages/home/index.tsx:23 | A string that already starts and ends with non-whitespace is its own trim. |
| `Text.Split` | src/pages/home/index.tsx:24 | Splitting gives at least one piece, and no piece contains the separator. |
| `Text.JoinSplit` | src/pages/home/index.tsx:24-28 | Joining the pieces of a split with the same separator gives back the original string. |
| `Text.SplitJoin` | src/pages/home/index.tsx:24-28 | Splitting a join of separator-free pieces gives back exactly those pieces. |
| `Text.AdjacentSeparatorsGiveEmptyPiece` | src/pages/home/index.tsx:24 | Two adjacent separators produce an empty piece after the first piece. |
| `Text.ToLower` | src/pages/home/index.tsx:34 | The result has the input's length, and each character is the input's character lower-cased (ASCII letters only; other characters are kept). |
| `Text.EndsWithConcat` | src/pages/home/index.tsx:36 | `endsWith(suffix)` holds exactly when the string is some string followed by `suffix`. |
| `Text.Join` | src/pages/home/index.tsx:28 | A join of at least one piece starts with the first piece. |
| `Text.JoinLast` | src/pages/home/index.tsx:28 | A join whose last piece is non-empty ends with that piece's last character. |
| `Text.ToLowerIsLower` | src/pages/home/index.tsx:34 | A lower-cased string has no upper-case letter, and lower-casing it again changes nothing. |
| `Schema.Capitalize` | src/pages/home/index.tsx:26 | Only the first character of the word can change. A lower-case first letter becomes upper-case; any other first character leaves the word unchanged. |
| `Schema.CapitalizeAll` | src/pages/home/index.tsx:25-27 | There is one output word per input word, in order, and each is that word capitalized. |
| `Schema.TransformName` | src/pages/home/index.tsx:21-29 | The transform fails (throws) exactly when the trimmed name's split has an empty word. Otherwise the result is the trimmed name with some letters upper-cased: same length, every character kept or upper-cased. |
| `Schema.NameIssues` | src/pages/home/index.tsx:20 | There is an issue exactly when the name is empty, and it is "O nome é obrigatório" at the name path. |
| `Schema.EmailIssues` | src/pages/home/index.tsx:30-37 | There is no issue exactly when the email is non-empty, passes the format test, and ends with `@gmail.com` once lower-cased. Every issue is at the email path. The first issue says "required" for an empty email and "malformed" for a non-empty one that fails the format test. An email that passes the format test but not the domain test gets exactly one issue, "not Google". |
| `Schema.PasswordIssues` | src/pages/home/index.tsx:38 | There is an issue exactly when the password has fewer than 6 characters, and it is "A senha precisa de no mínimo 6 caracteres" at the password path. |
| `Schema.TechsIssues` | src/pages/home/index.tsx:39-46 | The list has no issue exactly when it has at least 2 rows and every row is valid (`EntryValid`: a non-empty title and knowledge in [1, 100]). A list of fewer than 2 rows reports "Insira pelo menos 2 tecnologias" first. |
| `Schema.Issues` | src/pages/home/index.tsx:17-46 | A submit has no issue exactly when every rule holds (`MeetsRules`). The name must be non-empty. The email must be non-empty, in email format, and end with `@gmail.com` once lower-cased. The password must have at least 6 characters. There must be at least 2 rows, each valid. |
| `Schema.EntryIssues` | src/pages/home/index.tsx:41-44 | A row has no issue exactly when its title is non-empty and its knowledge lies in [1, 100]. |
| `Schema.EntriesIssues` | src/pages/home/index.tsx:40-45 | Every row issue names a row whose rule it breaks: an empty title, knowledge below 1 or knowledge above 100. Each carries the message of that rule. |
| `Schema.ReportsEntry` | src/pages/home/index.tsx:40-45 | Every rule a row breaks has its issue at that row's path: an empty title, knowledge below 1, and knowledge above 100. |
| `Schema.FirstErrors` | src/pages/home/index.tsx:69 | The error map has a key for exactly the paths that have issues. Each key holds the message of the first issue at that path. Every entry is one of the issues. |
| `Schema.Validate` | src/pages/home/index.tsx:17-46 | A submit throws exactly when the name is non-empty and its trimmed split has an empty word. A rejection's error map has at least one entry. An accepted value has a lower-case email ending in `@gmail.com`, a password of at least 6 characters, and at least 2 rows, all valid. |
| `SchemaProperties.NameWordByWord` | src/pages/home/index.tsx:21-29 | The transformed name has the same number of space-separated words as the trimmed input. Each output word is the input word with only its first character upper-cased. The input words join back to the trimmed input. |
| `SchemaProperties.NameIdempotent` | src/pages/home/index.tsx:21-29 | Transforming an already transformed name returns it unchanged. |
| `SchemaProperties.BlankNameThrows` | src/pages/home/index.tsx:20-26 | A non-empty name made only of whitespace passes the required check, then throws in the transform. |
| `SchemaProperties.AdjacentSpacesThrow` | src/pages/home/index.tsx:24-26 | Two adjacent spaces inside the trimmed name make the submit throw. |
| `Schema.EntriesIssuesEmpty` | src/pages/home/index.tsx:40-45 | There are no row issues exactly when every row is valid. |
| `SchemaProperties.AcceptedIffAdmissible` | src/pages/home/index.tsx:17-46 | A submit is accepted exactly when every rule holds and the name transform meets no empty word. The output name is then the transformed name. The output email is the lower-cased address and ends with `@gmail.com`. Password and rows pass through unchanged. |
| `SchemaProperties.ValidateIdempotent` | src/pages/home/index.tsx:17-46 | Re-validating an accepted output accepts it again, unchanged, provided the format check still accepts the lower-cased address. |
| `SchemaProperties.RejectedFieldErrors` | src/pages/home/index.tsx:17-46 | The error map of a rejected submit holds an entry for the name, email, password or list exactly when that field breaks its own rules. The message is that of the first rule broken: for the email, "required" when empty, else "malformed" when the format test fails, else "not Google". The other fields never interfere. |
| `SchemaProperties.RejectedTitleErrors` | src/pages/home/index.tsx:42 | The error map of a rejected submit holds "O título é obrigatório" at row k exactly when row k exists and has an empty title. |
| `SchemaProperties.RejectedKnowledgeErrors` | src/pages/home/index.tsx:43 | The error map of a rejected submit holds a knowledge error at row k exactly when row k exists and its knowledge is outside [1, 100]. The message is that of the bound crossed. |
| `Schema.Displayed` | src/pages/home/index.tsx:119-175 | The displayed messages are exactly the error map's entries at rendered paths, with the same messages. Every path is rendered except a row's knowledge. |
| `SchemaProperties.SilentKnowledgeRejection` | src/pages/home/index.tsx:155-175 | A submit whose only broken rules are knowledge bounds is rejected, yet nothing is displayed. |
| `SchemaProperties.NameScenario` | src/pages/home/index.tsx:21-29 | "joão silva" becomes "João Silva". |
| `SchemaProperties.EmailScenarios` | src/pages/home/index.tsx:30-37 | "USER@GMAIL.COM" has no issue and becomes "user@gmail.com". "user@hotmail.com" fails only the domain rule. |
| `SchemaProperties.TechsScenarios` | src/pages/home/index.tsx:39-46 | Zero rows or one valid row fail only with "Insira pelo menos 2 tecnologias". Two valid rows pass. |
| `SchemaProperties.KnowledgeBounds` | src/pages/home/index.tsx:43 | Knowledge 1 and 100 pass. 0 fails the lower bound and 101 the upper, at the row's knowledge path. |
| `Strength.IsPasswordStrong` | src/pages/home/index.tsx:100-103 | The pattern, as a search for a position where all five lookaheads succeed. A match needs at least 8 characters. |
| `Strength.StrongHasEveryClass` | src/pages/home/index.tsx:100-103 | Whenever the pattern matches, the password has a lower-case letter, an upper-case letter, a digit, another character, and at least 8 characters. |
| `Strength.StrongIffEveryClass` | src/pages/home/index.tsx:100-103 | On a password without line terminators, the pattern matches exactly when all four classes are present and the length is at least 8. |
| `Strength.LineTerminatorDefeatsPattern` | src/pages/home/index.tsx:100-103 | A 9-character password with all four classes and a line feed in the middle does not match. |
| `Strength.ShortPasswordAcceptedButWeak` | src/pages/home/index.tsx:100-103 | Any 6- or 7-character password passes the schema's minimum-6 rule (line 38), yet the indicator calls it weak. |
| `Strength.StrengthScenarios` | src/pages/home/index.tsx:100-103 | "Abcdef1!" is strong; "abcdef" is weak. |
| `TechList.RemovalKeepsKeyedRows` | src/pages/home/index.tsx:155-182 | Removing a position keeps every other row, with its key and value, in the same order. Keys stay distinct. The submitted values lose exactly that position. |
| `TechList.TechFields.constructor` | src/pages/home/index.tsx:79-82 | The field array starts with no rows. |
| `TechList.TechFields.Append` | src/pages/home/index.tsx:79-82 | Appending adds one row at the end, under a key no existing row has. Earlier rows are unchanged. |
| `TechList.TechFields.AddNewTech` | src/pages/home/index.tsx:92-97 | The length grows by exactly one. Earlier rows are unchanged. The last row holds an empty title and knowledge 0 under a fresh key. The submitted values gain exactly that entry. |
| `TechList.TechFields.Remove` | src/pages/home/index.tsx:178 | After a remove at position i, the rows are the old rows before i followed by the old rows after i. No key is reused, and the submitted values lose exactly position i. |
| `TechList.AddThenRemove` | src/pages/home/index.tsx:92-97 | Adding a row and then removing it at its new position restores the list, and its values, exactly. |

## Left out

- Rendering is not modelled. This covers the input and label components,
  the page layout, `useState` for the output, and the pretty-printed
  output text. An `Accepted` value stands for what the page prints.
- The email-format regular expression belongs to the schema library and
  is not part of this model. `Validate` takes it as the parameter
  `isEmail`.
- `z.coerce.number()` converts the knowledge text with JavaScript's
  floating-point `Number`. Knowledge is modelled as an integer that is
  already converted. Not modelled: non-numeric text (NaN, a type issue),
  fractions, and infinities.
- `toLocaleUpperCase` and `toLowerCase` are modelled on ASCII letters only;
  every other character is kept as it is. JavaScript also changes other
  letters: "élodie" becomes "Élodie", and a leading "ß" becomes "SS". The
  model keeps both names unchanged. Length
  counts characters; JavaScript counts UTF-16 code units, so the two
  differ for characters outside the Basic Multilingual Plane.
- TransformName: the same-length clause holds only under ASCII casing; in
  JavaScript a word starting with "ß" grows by one character.
- The message element (`Form.ErrorMessage`, src/components/Form/ErrorMessage.tsx)
  is not part of this model. `Displayed` takes it that each element shows
  the error map's entry at its own path, and nothing when there is none.
- Only the first message per path is kept, as the resolver does by
  default. Two things are not modelled: the nested shape of the error
  object, and the library's issue codes.
- Submission handling is not modelled: the `isSubmitting` guard that
  disables the button, and the asynchronous submit handler. `Thrown`
  stands for the submit promise rejecting with the transform's TypeError,
  with nothing shown.
- The commented-out avatar rules and the commented-out storage upload are
  dead code. They are left out.
- The field array generates random string keys. `nextId` is a counter
  that stands for "a key no current row has".
- The list is taken to be the field array's current rows. A form whose
  list was never touched may submit no value at all rather than an empty
  list; that case is not modelled.
- Editing a row's inputs is not modelled. It is done by the input
  component's `register`, and only add and remove are.
- The indicator's input is taken to be a string. Before anything is
  typed, the watched password is `undefined`, and the pattern then tests
  the text "undefined"; that case is not modelled.
