# Contact book store, modelled in Dafny

`contact_book.py` keeps two versions of a contact store. This project models both.

- **The full store** is the commented-out block at lines 8-159, and the API the test suite exercises. A `Contact` has seven string attributes: name, phone, email, address, notes, created date and last-modified date. A `ContactBook` keeps an ordered list of contacts, mirrored to a JSON file. It offers:
  - a validated add;
  - lookup by stripped phone;
  - case-insensitive search;
  - keyword update with a duplicate-phone check;
  - delete;
  - a stable listing sorted by name;
  - statistics.

  The model is module `ContactStore` in `contact_store.dfy`.
- **The live store** is lines 662-705, the code the application runs. A `Contact` has four attributes. The `ContactBook` is an unvalidated list with add, delete, in-place edit, search over `str(contact)`, and lookup by phone. The model is module `LiveContactStore` in `live_store.dfy`.

Contacts are Dafny classes because Python compares them by identity: neither class defines `__eq__`. That is why `in`, `list.remove` and `==` on contacts are reference comparisons.

- The full store's contacts have mutable fields, because `update` assigns them.
- The live store's contacts have constant fields, because nothing there changes them.

Outside effects become parameters or fields:

- The clock (`datetime.now()`) is a `now` string parameter.
- The JSON file is the book's `disk` field. `save_contacts` writes the `to_dict` records there. `load_contacts` reads the field as one of three cases:
  - absent;
  - unparsable;
  - a list of string dictionaries.
- Keyword arguments (`**kwargs`) are a sequence of `(key, value)` pairs in call order; for a repeated key, the last one wins.

Four modules support the two stores:

- `Text` covers Python's `strip`, `lower`, the substring test and string ordering, on ASCII.
- `Seqs` covers list index, list removal and subsequences.
- `Sorting` covers `sorted(key=...)`, done as decorate, stable insertion sort, undecorate.
- `Wrappers` provides `Option` and `Result`.

Two details follow the code exactly:

- The modification stamp is stored under the key `last_modified`, as `to_dict` writes it (contact_book.py:29).
- The statistics count email and address values that are non-empty as stored, with no stripping (contact_book.py:153-154).

## Model

| member | source | states |
|---|---|---|
| `Text.TrimIsMiddle` | contact_book.py:83-85 | `s.strip()` is the part of `s` between a whitespace prefix and a whitespace suffix, and it neither starts nor ends with whitespace |
| `Text.TrimIdempotent` | contact_book.py:69-70 | stripping an already stripped field changes nothing |
| `Text.TrimEmptyIffAllSpace` | contact_book.py:62-63 | `not s.strip()` holds exactly when `s` is all whitespace, the rule for refusing a name or phone |
| `Text.Contains` | contact_book.py:95-97 | the substring test is true exactly when the query occurs somewhere in the string |
| `Text.FindTrimmed` | contact_book.py:83-87 | the lookup scan returns the first index whose stripped value equals the stripped key, or none exactly when no value matches |
| `Sorting.SortByKeySorted` | contact_book.py:129 | `sorted` yields keys in non-decreasing order |
| `Sorting.SortByKeyPermutes` | contact_book.py:129 | `sorted` returns the same elements, as a multiset |
| `Sorting.SortByKeyStable` | contact_book.py:129 | elements sharing a key keep their original relative order |
| `ContactStore.ContactData.ToDict` | contact_book.py:20-30 | `to_dict` has exactly the seven record keys |
| `ContactStore.ContactData.FromDict` | contact_book.py:32-39 | `from_dict` fails exactly when `name` or `phone` is missing, with a KeyError naming `name` when both are missing |
| `ContactStore.FromDictReadsKeys` | contact_book.py:35-38 | with `name` and `phone` present, every attribute is read from its key, and a missing optional key gives `""` |
| `ContactStore.FromDictToDict` | contact_book.py:20-39 | `from_dict(to_dict(c))` has the same seven values as `c` |
| `ContactStore.DecodeAll` | contact_book.py:137 | loading the list succeeds exactly when every record decodes, giving one record per entry in file order |
| `ContactStore.DecodeAllFirstFailure` | contact_book.py:35-37 | the error raised while loading is that of the first record missing `name` or `phone` |
| `ContactStore.SaveThenLoad` | contact_book.py:137-146 | whatever `save_contacts` writes, `load_contacts` reads back unchanged, timestamps included |
| `ContactStore.ApplyKwargsFields` | contact_book.py:41-45 | each keyword naming an attribute sets it to the last value given, with no stripping or emptiness check; other attributes are left alone and other keywords are ignored |
| `ContactStore.ApplyKwargsPhoneSetFirst` | contact_book.py:111-113 | setting the phone before `update` leaves the same record as `update` alone, when the keywords carry that phone |
| `ContactStore.UnstrippedDuplicateAccepted` | contact_book.py:66-70 | the duplicate check compares the phone as given: `" 111"` is accepted next to a stored `"111"` and is stored as `"111"` |
| `ContactStore.RepeatedKeyword` | contact_book.py:101 | a call is refused exactly when some keyword is `self` or `phone`, and the refused keyword is one of those two |
| `ContactStore.PhoneKeywordRefused` | contact_book.py:101-106 | `update_contact("111", phone="222")` is refused; keywords naming other attributes are not |
| `ContactStore.Lookup` | contact_book.py:106 | `kwargs.get(key)` is None exactly when no keyword is named `key` |
| `ContactStore.LookupLast` | contact_book.py:106 | a value found by `kwargs.get(key)` is the value of the last keyword named `key` |
| `ContactStore.SetAttributeDict` | contact_book.py:43-44 | `setattr` on one of the seven attributes changes the record's `to_dict` at that key alone; a key naming no attribute changes nothing |
| `ContactStore.ApplyKwargs` | contact_book.py:42-44 | keywords none of which names an attribute leave the record unchanged |
| `ContactStore.AfterUpdate` | contact_book.py:41-45 | after `update`, each attribute holds its keyword's last value or its own, and `last_modified` is now even when a keyword set it |
| `ContactStore.AddRejection` | contact_book.py:62-67 | a blank name or phone is refused first; otherwise a phone equal, as given, to a stored phone is refused; every other call is accepted |
| `ContactStore.PhoneChangeClash` | contact_book.py:106-110 | a refused phone change needs a `phone` keyword whose value is non-empty, differs from the target's phone and is held by a stored contact; with no `phone` keyword nothing is refused |
| `ContactStore.Matches` | contact_book.py:95-97 | the empty query matches every record, and a matching query is no longer than the name, the phone or the email |
| `ContactStore.Matching` | contact_book.py:94-98 | the search result is no longer than the list and holds only stored contacts |
| `ContactStore.Encode` | contact_book.py:145 | one dictionary per contact, in list order, each with exactly the seven record keys |
| `ContactStore.Loaded` | contact_book.py:131-139 | a missing or unparsable file gives no contacts; a JSON list loads exactly when every record has `name` and `phone`, one record per entry |
| `ContactStore.SortedByName` | contact_book.py:129 | `sorted` returns the same contacts, as a multiset |
| `ContactStore.CountNonEmpty` | contact_book.py:153-154 | a count of non-empty values never exceeds the number of values |
| `ContactStore.CountNonEmptyIsCardinality` | contact_book.py:153-154 | the count is the number of positions that hold a non-empty string |
| `ContactStore.MatchingMembers` | contact_book.py:94-98 | a contact is in the search result exactly when it is stored and matches the lowered query |
| `ContactStore.MatchingInOrder` | contact_book.py:93-99 | the search result is a subsequence of the list, so the list order is kept |
| `ContactStore.MatchingEmptyQuery` | contact_book.py:92-99 | an empty query returns every contact |
| `ContactStore.SortedByNameSpec` | contact_book.py:129 | the sorted listing is a permutation of the contacts, non-decreasing by lowered name, and contacts with equal lowered names keep their order |
| `ContactStore.Contact.constructor` | contact_book.py:11-18 | a new contact holds the given five values, with both timestamps set to now |
| `ContactStore.Contact.ToDict` | contact_book.py:20-30 | the dictionary of a contact has the seven keys and decodes back to that contact's values |
| `ContactStore.Contact.FromDict` | contact_book.py:32-39 | a new contact with the decoded values, or the KeyError of the record |
| `ContactStore.Contact.Update` | contact_book.py:41-46 | after `update`, the attributes are those the keywords set, and `last_modified` is now |
| `ContactStore.ContactBook.constructor` | contact_book.py:54-56 | a fresh book has the file name and no contacts |
| `ContactStore.LoadRecords` | contact_book.py:137 | the list comprehension yields one new, distinct contact per record with that record's values, or the KeyError of the first record missing a key |
| `ContactStore.ContactBook.LoadContacts` | contact_book.py:131-139 | an absent file leaves the list alone; an unparsable one empties it; a record missing a key raises KeyError and leaves the list alone; otherwise every record becomes a new contact, in file order |
| `ContactStore.ContactBook.Open` | contact_book.py:54-57 | constructing a book gives exactly the loaded records, or the KeyError |
| `ContactStore.ContactBook.SaveContacts` | contact_book.py:141-146 | the file then holds the `to_dict` of every contact, in list order |
| `ContactStore.ContactBook.AddContact` | contact_book.py:59-73 | a blank stripped name or phone is refused, then a phone equal to a stored one as given; a refusal changes neither list nor file; otherwise one new contact with the five stripped fields, stamped now, is appended, earlier contacts are untouched and the file is saved; a stripped phone keeps stored phones pairwise distinct |
| `ContactStore.ContactBook.Append` | contact_book.py:71-72 | appending a contact not yet stored adds its record at the end, keeps the list free of repeats, keeps phones distinct when its phone is new, and saves |
| `ContactStore.ContactBook.GetContactByPhone` | contact_book.py:81-87 | returns the first contact whose stripped phone equals the stripped argument, or None when there is none; nothing changes |
| `ContactStore.ContactBook.SearchContacts` | contact_book.py:90-99 | the result is the list filtered by the lowered-query test on name, phone as stored and non-empty email |
| `ContactStore.ContactBook.UpdateContact` | contact_book.py:101-116 | with the new phone taken from the keywords: no match returns NotFound and changes nothing; a non-empty new phone that differs from the target's and is stored already is refused and changes nothing; otherwise only the target's record changes, to its `update` result, list order is kept, the file is saved and the target is returned |
| `ContactStore.ContactBook.UpdateAt` | contact_book.py:107-115 | the update past the checks changes only the record at the target's position, and saves |
| `ContactStore.ContactBook.UpdateContactAsCalled` | contact_book.py:101-116 | as Python binds the call: a `self` or `phone` keyword is refused with no change; otherwise no match returns NotFound and changes nothing, and a match has only its record changed, to its `update` result, is returned and the file is saved; the duplicate-phone refusal can never happen and no stored phone changes |
| `ContactStore.ContactBook.DeleteContact` | contact_book.py:118-125 | returns true exactly when a stripped-phone match exists; then exactly that contact is removed, the others keep their order and the file is saved; otherwise nothing changes |
| `ContactStore.ContactBook.RemoveAt` | contact_book.py:122-123 | removing the contact at its position drops exactly that record, keeps the order of the others, and saves |
| `ContactStore.ContactBook.GetAllContacts` | contact_book.py:127-129 | the listing is a permutation of the contacts, sorted by lowered name, stable for equal names; the stored list is not reordered |
| `ContactStore.ContactBook.GetStatistics` | contact_book.py:150-159 | the total is the number of contacts; each other count is the number of contacts with a non-empty email or address, and is at most the total |
| `Seqs.IndexOf` | contact_book.py:122 | `list.index` finds the first position holding the object |
| `Seqs.RemoveFirstCount` | contact_book.py:685-686 | `list.remove` shortens the list by one and takes exactly one occurrence out of its multiset |
| `Seqs.ReplaceFirstCount` | contact_book.py:690-692 | overwriting the first occurrence keeps the length and swaps one occurrence for the new element |
| `LiveContactStore.Contact.constructor` | contact_book.py:664-668 | a contact holds the four given values |
| `LiveContactStore.Contact.ToString` | contact_book.py:670-671 | `str(contact)` is the four attributes with a space, a bar and a space between each two: it starts with the name and the first separator, ends with the address, and is nine characters longer than the attributes together |
| `LiveContactStore.Hit` | contact_book.py:697 | the empty keyword hits every contact, and a hitting keyword is no longer than the contact's `str` |
| `LiveContactStore.Filter` | contact_book.py:697 | the result is no longer than the list |
| `LiveContactStore.FilterCount` | contact_book.py:697 | each hitting contact is kept as many times as the list holds it, and a contact that does not hit is never kept |
| `LiveContactStore.FilterMembers` | contact_book.py:697 | every kept contact is in the list and hits the keyword, and every listed contact that hits is kept |
| `LiveContactStore.FilterInOrder` | contact_book.py:697 | the kept contacts are a subsequence of the list |
| `LiveContactStore.FilterAll` | contact_book.py:697 | a keyword every contact hits keeps the whole list, repeats included |
| `LiveContactStore.AttributeHit` | contact_book.py:670-671 | a lowered keyword found in any lowered attribute is found in the lowered `str(contact)` |
| `LiveContactStore.SeparatorHitsAll` | contact_book.py:670-671 | the bar keyword occurs in every contact's `str`, since the separator between attributes is part of it |
| `LiveContactStore.SeparatorOrEmptyKeepsAll` | contact_book.py:695-697 | searching for the bar character or for the empty string returns the whole list |
| `LiveContactStore.ContactBook.constructor` | contact_book.py:676-677 | a new book is empty |
| `LiveContactStore.ContactBook.AddContact` | contact_book.py:679-681 | the contact is appended, even when it is already stored |
| `LiveContactStore.ContactBook.DeleteContact` | contact_book.py:683-686 | only the first occurrence of the contact is removed; an absent contact changes nothing |
| `LiveContactStore.ContactBook.EditContact` | contact_book.py:688-693 | the first occurrence of the old contact is overwritten by the new one at its position; an absent one changes nothing |
| `LiveContactStore.ContactBook.SearchContacts` | contact_book.py:695-697 | the listed contacts whose lowered `str` contains the lowered keyword are returned, in list order, each as often as the list holds it, and no others |
| `LiveContactStore.ContactBook.GetContactByPhone` | contact_book.py:699-705 | returns the first contact whose stripped phone equals the stripped argument, or None when there is none |

## Left out

- The Tkinter windows and dialogs, at contact_book.py:161-518 and 708-868, are widget glue.
- The console menu and `main`, at contact_book.py:520-653, are interactive I/O.
- `demo.py` only prints.
- Real file access is not modelled. The file is the `disk` value. Excluded:
  - other JSON shapes, such as non-list documents or non-string values;
  - file encodings;
  - the exception `save_contacts` raises when writing fails (contact_book.py:147-148).
- `datetime.now()` and its `%Y-%m-%d %H:%M:%S` format are not modelled. The time is an opaque `now` string.
- ContactStore.Contact.constructor: both timestamps get the same `now`. The source reads the clock twice (contact_book.py:17-18), so across a second boundary the two stamps can differ.
- `strip`, `lower` and `isspace` are modelled on ASCII only. Unicode whitespace and case mapping are not modelled.
- ContactStore.Contact.Update: `hasattr` in Python also accepts method names such as `to_dict`, and a `self` keyword raises TypeError. The model only sets the seven data attributes and ignores every other keyword.
- ContactStore.ContactBook.AddContact: phone uniqueness is promised only when the given phone is already stripped. That is because the code compares the unstripped argument with stored phones (see `UnstrippedDuplicateAccepted`).
- The default arguments of `Contact(...)`, `add_contact` and `ContactBook(filename="contacts.json")` are not modelled. Callers pass every value, including `""`.
- The full `Contact.__str__` (contact_book.py:48-49) is not modelled; only demo.py prints it (demo.py:130 and demo.py:159).
- Keyword arguments can hold a key twice in the model. Python cannot, so such calls are never made; in the model the last binding wins.

## Findings

| source | as written | input that shows it | evidently intended | confidence | as-written member | corrected member |
|---|---|---|---|---|---|---|
| contact_book.py:101-111 | `update_contact(self, phone, **kwargs)` reads the new phone with `kwargs.get('phone')`. But `phone` is a declared parameter, so a `phone=` keyword raises TypeError ("got multiple values for argument 'phone'"). The phone-change branch and its duplicate check can never run. The GUI's edit calls `update_contact(contact.phone, **dialog.result)` (line 337) with a dictionary that always holds `'phone'` (line 508). So every edit from the GUI raises this TypeError, and only `ValueError` is caught there (line 341). | `update_contact("111", phone="222")`; any edit from the GUI | a `phone=` keyword changes the target's phone, refused when another contact already has it | not executed | `ContactStore.ContactBook.UpdateContactAsCalled` | `ContactStore.ContactBook.UpdateContact` |
