# Contact book: a Dafny model

This project models the contact book in `week1-tasks`. The book has two front ends over the same list of `{name, phone, email}` records:

- `contact_manager.py`, a menu-driven command-line shell;
- `contact_app.py`, a Flask web service.

Both front ends add records, search them by name and update them. Both share the phone and email validators, which have identical bodies and are defined once here.

Modules:

- `Text` (`text.dfy`) models three Python string operations over ASCII:
  - `str.strip()`;
  - `str.lower()`;
  - the substring test `t in s`. It is executable (`Contains`) and proved equal to "occurs at some offset" (`IsSubstring`).
- `Validation` (`validation.dfy`) models `validate_phone` and `validate_email`.
  - The email pattern `^[\w\.-]+@[\w\.-]+\.\w+$` is stated twice:
    - as the existence of a split `local @ domain . tld` (`MatchesEmailPattern`);
    - as an executable reading that takes the first `@` and the last `.` (`EmailShaped`).
  - A lemma proves the two readings equal.
- `Contacts` (`contacts.dfy`) holds what the front ends share:
  - the record type;
  - the `Outcome` tags, which stand for each printed message or each error reply with status 400/404;
  - case-insensitive names;
  - the name search, which is a filter that keeps list order.
- `ContactManager` (`contact_manager.dfy`) is the shell.
  - `ContactBook` is a class that owns the list the menu loop passes around by reference.
  - Its methods `AddContact` and `UpdateContact` change the list in place. Each is proved equal to a pure function (`AddSpec`, `UpdateSpec`) of the old list and the lines typed at each `input()` prompt.
- `ContactApp` (`contact_app.dfy`) is the web service.
  - `ContactStore` is a class that owns the contents of `contacts.json`.
  - Its handler methods are proved equal to `AddSpec` and `UpdateSpec` of the old contents and the JSON body.
  - In the body (`Payload`), a key that is present becomes `Some`.

The two update operations differ in ways the model makes explicit:

- **Renaming a record to its own name.** The shell looks for the new name among all records, the selected one included, so this is rejected (`ApplyAnswersRejectsOwnName`). The web handler skips the record itself and accepts it (`UpdateAcceptsOwnName`).
- **Blank or empty answers.** In the shell, a blank answer keeps the current value. In the web body, a present key is never read as "keep the current value": if it passes its check it replaces the field, so an empty name is stored (`UpdateAcceptsEmptyName`) and an empty email clears the field (`UpdateClearsEmail`). An empty phone fails its check and is rejected.
- **Failed checks.** The shell checks and stores one answer at a time. When a later answer is rejected, the earlier ones stay in the list in memory (`ApplyAnswersKeepsEarlierAnswers`), and the next save writes them out, at the latest when the user exits. The web handler checks every field before changing anything, so a rejected update leaves the file as it was (`UpdateSpec`).
- **Stripping.** The shell strips every answer. The web handler strips nothing, so a name made only of blanks is not empty there (`AddKeepsBlankName`).

## Model

| member | source | states |
|---|---|---|
| Text.Strip | week1-tasks/contact_manager.py:39 | the result is the slice of the input left once only whitespace before and after it is removed, and it neither starts nor ends with whitespace |
| Text.StripEmptyIffBlank | week1-tasks/contact_manager.py:39-40 | an answer is treated as empty after stripping exactly when every character of it is whitespace |
| Text.Lower | week1-tasks/contact_manager.py:45 | lower-casing keeps the length, leaves no upper-case letter and maps each character by itself |
| Text.Contains | week1-tasks/contact_manager.py:66 | the substring test `term in name`, executable; `ContainsIsSubstring` proves it means "occurs at some offset" |
| Text.ContainsIsSubstring | week1-tasks/contact_manager.py:66 | the executable substring test holds exactly when the term occurs at some offset of the name |
| Text.OccurrenceContained | week1-tasks/contact_manager.py:66 | an occurrence at any offset is found by the substring test |
| Text.ContainedOccurs | week1-tasks/contact_manager.py:66 | whatever the substring test finds is an occurrence |
| Text.MissingFirstChar | week1-tasks/contact_manager.py:66 | a term whose first character is absent from the name is not found |
| Text.EmptyContained | week1-tasks/contact_app.py:54-55 | the empty term is contained in every name |
| Validation.ValidPhone | week1-tasks/contact_app.py:33-35 | `validate_phone`: non-empty, all digits and at least seven characters; `ValidPhoneExamples` exercises it |
| Validation.ValidPhoneExamples | week1-tasks/contact_manager.py:26-28 | seven digits pass; six digits, a dash or the empty string fail |
| Validation.FirstIndexOf | week1-tasks/contact_manager.py:34-35 | the offset found holds the character and no earlier offset does |
| Validation.LastIndexOf | week1-tasks/contact_manager.py:34-35 | the offset found holds the character and no later offset does |
| Validation.EmailShaped | week1-tasks/contact_manager.py:34-35 | the executable reading of the email pattern (first `@`, last `.` after it); `EmailShapedMatchesPattern` proves it equal to the pattern |
| Validation.ValidEmail | week1-tasks/contact_manager.py:30-35 | `validate_email` accepts exactly the empty email and the strings the pattern matches |
| Validation.EmailShapedSplits | week1-tasks/contact_manager.py:34-35 | every string the executable reading accepts matches the pattern |
| Validation.SplitIsEmailShaped | week1-tasks/contact_manager.py:34-35 | every split the pattern allows makes the executable reading accept |
| Validation.DomainAddressChars | week1-tasks/contact_manager.py:34 | a domain part, a dot and a word part together are over the domain class |
| Validation.EmailShapedMatchesPattern | week1-tasks/contact_app.py:37-42 | the executable email check accepts exactly the strings the pattern matches |
| Validation.ValidEmailAcceptsShortest | week1-tasks/contact_manager.py:30-35 | the empty email (optional field) and `a@b.c` are accepted |
| Validation.ValidEmailAcceptsAddress | week1-tasks/contact_manager.py:30-35 | `bob@x.com` is accepted |
| Validation.ValidEmailRejectsBareDomain | week1-tasks/contact_manager.py:34-35 | `a@b` is rejected: there is no dot after the `@` |
| Validation.ValidEmailRejectsNoAt | week1-tasks/contact_manager.py:30-35 | every non-empty string without `@` is rejected |
| Validation.ValidEmailRejectsNotAnEmail | week1-tasks/contact_manager.py:34-35 | `not-an-email` is rejected |
| Contacts.MatchIndices | week1-tasks/contact_manager.py:66 | the positions found are strictly increasing, each one matches, and every matching position is found |
| Contacts.Pick | week1-tasks/contact_manager.py:66 | the records picked are those at the given positions, in order |
| Contacts.NameTaken | week1-tasks/contact_manager.py:45 | some record's name equals the given one up to case (also contact_manager.py:106 and contact_app.py:68) |
| Contacts.Search | week1-tasks/contact_app.py:55 | the list comprehension that keeps the records whose name contains the term; the result is no longer than the list |
| Contacts.SearchMembers | week1-tasks/contact_manager.py:66 | a record is in the search result exactly when it is in the list and its lower-cased name contains the term |
| Contacts.SearchSnoc | week1-tasks/contact_app.py:55 | the search is a filter: one more record extends the result by that record exactly when it matches |
| Contacts.SearchEmptyTerm | week1-tasks/contact_app.py:54-55 | the empty term returns the whole list in order |
| Contacts.JoOccurrences | week1-tasks/contact_manager.py:66 | `jo` occurs in lower-cased `John` and `Joanna` but not in `Mark` |
| Contacts.SearchExample | week1-tasks/contact_manager.py:63-66 | searching `jo` among John, Joanna and Mark yields John and Joanna in that order |
| Contacts.AppendKeepsNamesUnique | week1-tasks/contact_manager.py:45-59 | appending a record whose name is not taken keeps names unique up to case |
| Contacts.AppendKeepsValidNamed | week1-tasks/contact_manager.py:40-59 | appending a valid, named record keeps every record valid and named |
| Contacts.RenameKeepsNamesUnique | week1-tasks/contact_app.py:103-105 | renaming a record to a name no other record has keeps names unique |
| ContactManager.OrKeep | week1-tasks/contact_manager.py:99-123 | "press Enter to keep current": a blank answer keeps the current value, any other replaces it |
| ContactManager.AddSpec | week1-tasks/contact_manager.py:37-59 | each error is reported exactly when the checks before it pass and its own fails (name, then duplicate, then phone, then email) and changes nothing; success holds exactly when every check passes and appends exactly the stripped record |
| ContactManager.AddKeepsNamesUnique | week1-tasks/contact_manager.py:44-59 | adding keeps names unique up to case |
| ContactManager.AddKeepsValidNamed | week1-tasks/contact_manager.py:39-59 | adding keeps every record valid and every name non-empty |
| ContactManager.Candidates | week1-tasks/contact_manager.py:78-97 | the positions offered are exactly those whose lower-cased name contains the stripped, lower-cased term, in list order with none repeated, so `selection` names one record |
| ContactManager.ApplyAnswers | week1-tasks/contact_manager.py:104-123 | only the selected record can change; a taken new name is rejected and changes nothing; a bad phone or email is reported exactly when the answers before it pass and it fails; success holds exactly when each non-blank answer passes its check, and each blank answer keeps the current value |
| ContactManager.ApplyAnswersRejectsOwnName | week1-tasks/contact_manager.py:105-108 | renaming the selected record to its own name in any case is rejected and changes nothing |
| ContactManager.ApplyAnswersKeepsEarlierAnswers | week1-tasks/contact_manager.py:104-123 | blank answers keep their fields; a rejected phone keeps an accepted name, a rejected email keeps an accepted name and phone |
| ContactManager.ApplyAnswersKeepsInvariants | week1-tasks/contact_manager.py:104-123 | whatever the outcome, names stay unique, records valid and names non-empty |
| ContactManager.UpdateSpec | week1-tasks/contact_manager.py:76-123 | not found exactly when no name contains the term; invalid selection exactly when the selection is outside 1..matches; both change nothing; otherwise the answers apply to the selected match |
| ContactManager.UpdateKeepsInvariants | week1-tasks/contact_manager.py:76-123 | whatever the outcome, updating keeps names unique, records valid and names non-empty |
| ContactManager.ContactBook.constructor | week1-tasks/contact_manager.py:142 | the book starts from the loaded list |
| ContactManager.ContactBook.AddContact | week1-tasks/contact_manager.py:37-61 | the outcome and the new list are those of `AddSpec` on the old list |
| ContactManager.ContactBook.SearchContacts | week1-tasks/contact_manager.py:63-66 | a record is listed exactly when it is in the book and its lower-cased name contains the stripped, lower-cased term; a blank term lists every record; the result is the search of that term, so it keeps list order |
| ContactManager.ContactBook.UpdateContact | week1-tasks/contact_manager.py:76-126 | the outcome and the new list are those of `UpdateSpec` on the old list |
| ContactManager.ContactBook.StoreAnswers | week1-tasks/contact_manager.py:104-123 | changing the record in place answer by answer gives exactly `ApplyAnswers` of the old list |
| ContactApp.AddSpec | week1-tasks/contact_app.py:59-81 | a missing or empty name, a duplicate, a bad or missing phone and a bad email are each reported exactly when the checks before them pass and their own fails, and change nothing; success appends the fields as sent, with a missing email stored as empty |
| ContactApp.AddKeepsBlankName | week1-tasks/contact_app.py:65-66 | a name of blanks is not reported as empty |
| ContactApp.AddKeepsInvariants | week1-tasks/contact_app.py:65-81 | adding keeps names unique up to case and records valid |
| ContactApp.AddAccepts | week1-tasks/contact_app.py:65-81 | a body whose fields pass every check appends exactly its record |
| ContactApp.AddAlice | week1-tasks/contact_app.py:59-81 | adding Alice with no email to an empty file stores her record |
| ContactApp.FindByName | week1-tasks/contact_app.py:92-96 | no position exactly when no name matches up to case; otherwise the first matching position |
| ContactApp.NameTakenElsewhere | week1-tasks/contact_app.py:103 | some record other than the found one has the new name up to case |
| ContactApp.Merge | week1-tasks/contact_app.py:118 | `dict.update`: each field present in the body replaces the old one |
| ContactApp.UpdateSpec | week1-tasks/contact_app.py:86-118 | the length is kept; not found exactly when no name matches; a duplicate name, bad phone or bad email is reported exactly when the record is found, the checks before it pass and its own fails; every rejection leaves the list unchanged |
| ContactApp.UpdateChangesOnlySuppliedFields | week1-tasks/contact_app.py:98-118 | success holds exactly when every field present passes; then only the found record changes, and only in the fields present |
| ContactApp.UpdateAcceptsOwnName | week1-tasks/contact_app.py:100-105 | with unique names, renaming a record to its own name in another case succeeds and changes only that name |
| ContactApp.UpdateClearsEmail | week1-tasks/contact_app.py:112-118 | an empty email in the body is accepted and clears the field |
| ContactApp.UpdateAcceptsEmptyName | week1-tasks/contact_app.py:100-105 | an empty new name is accepted and stored, so not every record is named afterwards |
| ContactApp.UpdateKeepsInvariants | week1-tasks/contact_app.py:86-118 | whatever the outcome, updating keeps names unique and records valid |
| ContactApp.AddTwoThenUpdatePhone | week1-tasks/contact_app.py:59-118 | adding two valid records with different names, then changing the first one's phone by any-case name, leaves both in order with only that phone changed |
| ContactApp.ContactStore.constructor | week1-tasks/contact_app.py:13-23 | the store starts from the stored records |
| ContactApp.ContactStore.GetContacts | week1-tasks/contact_app.py:49-57 | a record is returned exactly when it is stored and its lower-cased name contains the lower-cased term, in file order; an empty term returns every record |
| ContactApp.ContactStore.AddNewContact | week1-tasks/contact_app.py:59-84 | the outcome and the new contents are those of `AddSpec` on the old contents |
| ContactApp.ContactStore.UpdateExistingContact | week1-tasks/contact_app.py:86-120 | the outcome and the new contents are those of `UpdateSpec` on the old contents |

## Left out

- `load_contacts`, `save_contacts` and the JSON file format. The list is a value in memory; the classes start from it and own it.
- The menu loop, `input()`, `print` and the text of the messages. Each message is an `Outcome` tag, and each prompt is a parameter holding the line typed.
- `list_contacts`, which only displays records.
- The Flask routes, `render_template`, the HTTP status codes and the text of the error replies. Each status 400 or 404 reply is an `Outcome` tag.
- `static/script.js`, the page that calls the service.
- `int()` parsing of the selection. The selection is an `int`; text that does not parse behaves like any number outside `1..matches`, since both print the same error.
- Request bodies that are not JSON, and JSON values that are not strings (`null`, numbers). `Payload` holds only strings or absent keys.
- Concurrent requests to the web service, which read and rewrite the same file without a lock.
- Non-ASCII text. `str.isdigit`, `\w`, `str.lower` and `str.strip` are modelled on ASCII; Python extends each of them to Unicode.
- Validation.EmailShaped: the pattern's `$` also matches just before a final line feed, so Python accepts `a@b.c` followed by a newline. The model rejects it, because a newline is not in `\w`. The shell strips answers, so this matters only for the web service.
