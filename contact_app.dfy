/** The web handlers' logic: the filter of `get_contacts`, and the checks
    and changes of `add_new_contact` and `update_existing_contact`. Each
    handler loads the whole list from the backing file, works on it and
    writes it back; the file is the field of a `ContactStore`. A request's
    JSON body is a `Payload`, and the 400 and 404 replies are `Outcome`s. */
module ContactApp {
  import opened Text
  import opened Validation
  import opened Contacts

  /** The JSON body of a request: each key is present (`Some`) or absent
      (`None`). */
  datatype Payload = Payload(name: Option<string>, phone: Option<string>, email: Option<string>)

  /** What `add_new_contact` does to the list. A missing name counts as
      empty, a missing phone as "" (which no phone rule accepts) and a
      missing email as "" (which is accepted and stored). */
  function AddSpec(contacts: seq<Contact>, data: Payload): (r: Reply)
    ensures r.outcome in {Ok, EmptyName, DuplicateName, InvalidPhone, InvalidEmail}
    ensures r.outcome != Ok ==> r.contacts == contacts
    ensures r.outcome == EmptyName <==> data.name.GetOr([]) == []
    ensures r.outcome == DuplicateName <==> data.name.GetOr([]) != [] && NameTaken(contacts, data.name.value)
    ensures r.outcome == InvalidPhone <==>
      data.name.GetOr([]) != [] && !NameTaken(contacts, data.name.value) && !ValidPhone(data.phone.GetOr([]))
    ensures r.outcome == InvalidEmail <==>
      data.name.GetOr([]) != [] && !NameTaken(contacts, data.name.value) &&
      ValidPhone(data.phone.GetOr([])) && !ValidEmail(data.email.GetOr([]))
    ensures r.outcome == Ok <==>
      data.name.GetOr([]) != [] && !NameTaken(contacts, data.name.value) &&
      ValidPhone(data.phone.GetOr([])) && ValidEmail(data.email.GetOr([]))
    ensures r.outcome == Ok ==>
      data.name.Some? && data.phone.Some? &&
      r.contacts == contacts + [Contact(data.name.value, data.phone.value, data.email.GetOr([]))]
  {
    var name := data.name.GetOr([]);
    if name == [] then Reply(EmptyName, contacts)
    else if NameTaken(contacts, name) then Reply(DuplicateName, contacts)
    else if !ValidPhone(data.phone.GetOr([])) then Reply(InvalidPhone, contacts)
    else if !ValidEmail(data.email.GetOr([])) then Reply(InvalidEmail, contacts)
    else Reply(Ok, contacts + [Contact(name, data.phone.value, data.email.GetOr([]))])
  }

  /** Unlike the command-line shell, the handler does not strip the name:
      a name of blanks is not empty, so it is not rejected as such. */
  lemma AddKeepsBlankName(contacts: seq<Contact>, phone: Option<string>, email: Option<string>)
    ensures AddSpec(contacts, Payload(Some(" "), phone, email)).outcome != EmptyName
  {
  }

  /** Adding keeps names unique up to case and keeps every record valid. */
  lemma AddKeepsInvariants(contacts: seq<Contact>, data: Payload)
    ensures var r := AddSpec(contacts, data);
      (UniqueNames(contacts) ==> UniqueNames(r.contacts)) &&
      (AllValid(contacts) ==> AllValid(r.contacts))
  {
    var r := AddSpec(contacts, data);
    if r.outcome == Ok && UniqueNames(contacts) {
      AppendKeepsNamesUnique(contacts, r.contacts[|contacts|]);
      assert r.contacts == contacts + [r.contacts[|contacts|]];
    }
  }

  /** The position of the first record whose name equals `name` up to
      case, as `next((i for i, c in enumerate(contacts) if ...), None)`. */
  function FindByName(contacts: seq<Contact>, name: string): (r: Option<nat>)
    ensures r.None? <==> !NameTaken(contacts, name)
    ensures r.Some? ==>
      r.value < |contacts| && SameName(contacts[r.value].name, name) &&
      forall j | 0 <= j < r.value :: !SameName(contacts[j].name, name)
    decreases |contacts|
  {
    if |contacts| == 0 then None
    else if SameName(contacts[0].name, name) then Some(0)
    else match FindByName(contacts[1..], name)
      case None => None
      case Some(k) => Some(k + 1)
  }

  /** Some record other than the one at `index` has `name` up to case. */
  predicate NameTakenElsewhere(contacts: seq<Contact>, name: string, index: nat) {
    exists j | 0 <= j < |contacts| && j != index :: SameName(contacts[j].name, name)
  }

  /** `contact.update(updated_data)`: the fields present replace the old
      ones. */
  function Merge(c: Contact, updates: Payload): Contact {
    Contact(updates.name.GetOr(c.name), updates.phone.GetOr(c.phone), updates.email.GetOr(c.email))
  }

  /** What `update_existing_contact` does to the list: every field present
      in the body is checked before anything changes, and the record named
      `name` changes only when all of them pass. */
  function UpdateSpec(contacts: seq<Contact>, name: string, data: Payload): (r: Reply)
    ensures |r.contacts| == |contacts|
    ensures r.outcome in {Ok, NotFound, DuplicateName, InvalidPhone, InvalidEmail}
    ensures r.outcome == NotFound <==> !NameTaken(contacts, name)
    ensures r.outcome == DuplicateName <==>
      NameTaken(contacts, name) && data.name.Some? &&
      NameTakenElsewhere(contacts, data.name.value, FindByName(contacts, name).value)
    ensures r.outcome == InvalidPhone <==>
      NameTaken(contacts, name) &&
      !(data.name.Some? && NameTakenElsewhere(contacts, data.name.value, FindByName(contacts, name).value)) &&
      data.phone.Some? && !ValidPhone(data.phone.value)
    ensures r.outcome == InvalidEmail <==>
      NameTaken(contacts, name) &&
      !(data.name.Some? && NameTakenElsewhere(contacts, data.name.value, FindByName(contacts, name).value)) &&
      (data.phone.Some? ==> ValidPhone(data.phone.value)) &&
      data.email.Some? && !ValidEmail(data.email.value)
    ensures r.outcome != Ok ==> r.contacts == contacts
  {
    match FindByName(contacts, name)
    case None => Reply(NotFound, contacts)
    case Some(i) =>
      if data.name.Some? && NameTakenElsewhere(contacts, data.name.value, i) then Reply(DuplicateName, contacts)
      else if data.phone.Some? && !ValidPhone(data.phone.value) then Reply(InvalidPhone, contacts)
      else if data.email.Some? && !ValidEmail(data.email.value) then Reply(InvalidEmail, contacts)
      else Reply(Ok, contacts[i := Merge(contacts[i], data)])
  }

  /** An update succeeds exactly when the record exists and every field
      present passes its check; then only the first record with that name
      changes, and only in the fields present. */
  lemma UpdateChangesOnlySuppliedFields(contacts: seq<Contact>, name: string, data: Payload)
    requires NameTaken(contacts, name)
    ensures var i := FindByName(contacts, name).value;
      var r := UpdateSpec(contacts, name, data);
      (r.outcome == Ok <==>
        (data.name.Some? ==> !NameTakenElsewhere(contacts, data.name.value, i)) &&
        (data.phone.Some? ==> ValidPhone(data.phone.value)) &&
        (data.email.Some? ==> ValidEmail(data.email.value))) &&
      (r.outcome == Ok ==>
        (forall j | 0 <= j < |contacts| && j != i :: r.contacts[j] == contacts[j]) &&
        r.contacts[i].name == (if data.name.Some? then data.name.value else contacts[i].name) &&
        r.contacts[i].phone == (if data.phone.Some? then data.phone.value else contacts[i].phone) &&
        r.contacts[i].email == (if data.email.Some? then data.email.value else contacts[i].email))
  {
  }

  /** With unique names, renaming a record to its own name in another case
      is not a duplicate: the check skips the record itself. */
  lemma UpdateAcceptsOwnName(contacts: seq<Contact>, name: string, newName: string)
    requires UniqueNames(contacts) && NameTaken(contacts, name)
    requires SameName(newName, name)
    ensures var i := FindByName(contacts, name).value;
      var r := UpdateSpec(contacts, name, Payload(Some(newName), None, None));
      r.outcome == Ok && r.contacts == contacts[i := contacts[i].(name := newName)]
  {
    var i := FindByName(contacts, name).value;
    if NameTakenElsewhere(contacts, newName, i) {
      var j :| 0 <= j < |contacts| && j != i && SameName(contacts[j].name, newName);
      assert SameName(contacts[j].name, contacts[i].name);
    }
  }

  /** An empty email in the body is accepted and clears the field. */
  lemma UpdateClearsEmail(contacts: seq<Contact>, name: string)
    requires NameTaken(contacts, name)
    ensures var i := FindByName(contacts, name).value;
      var r := UpdateSpec(contacts, name, Payload(None, None, Some([])));
      r.outcome == Ok && r.contacts == contacts[i := contacts[i].(email := [])]
  {
  }

  /** Unlike adding, updating accepts an empty new name: when every record
      has a name, the empty name is taken by none of them and is stored. */
  lemma UpdateAcceptsEmptyName(contacts: seq<Contact>, name: string)
    requires AllNamed(contacts) && NameTaken(contacts, name)
    ensures var i := FindByName(contacts, name).value;
      var r := UpdateSpec(contacts, name, Payload(Some([]), None, None));
      r.outcome == Ok && r.contacts[i].name == [] && !AllNamed(r.contacts)
  {
    var i := FindByName(contacts, name).value;
    forall j | 0 <= j < |contacts| ensures !SameName(contacts[j].name, []) {
      assert |Lower(contacts[j].name)| == |contacts[j].name| > 0;
    }
  }

  /** Whatever the outcome, updating keeps names unique up to case and
      keeps every record valid. */
  lemma UpdateKeepsInvariants(contacts: seq<Contact>, name: string, data: Payload)
    ensures var r := UpdateSpec(contacts, name, data);
      (UniqueNames(contacts) ==> UniqueNames(r.contacts)) &&
      (AllValid(contacts) ==> AllValid(r.contacts))
  {
    var r := UpdateSpec(contacts, name, data);
    if r.outcome == Ok && UniqueNames(contacts) {
      var i := FindByName(contacts, name).value;
      var renamed := contacts[i := contacts[i].(name := r.contacts[i].name)];
      RenameKeepsNamesUnique(contacts, i, r.contacts[i].name);
      assert r.contacts == renamed[i := r.contacts[i]];
    }
  }

  /** The backing file `contacts.json`, with the handlers that read and
      rewrite it. */
  class ContactStore {
    var contacts: seq<Contact>

    constructor (stored: seq<Contact>)
      ensures contacts == stored
    {
      contacts := stored;
    }

    /** `get_contacts`: the records whose lower-cased name contains the
        lower-cased `search` parameter, in file order. The guard on an
        empty term changes nothing: the empty term matches every name. */
    function GetContacts(search: string): (r: seq<Contact>)
      reads this
      ensures forall c :: c in r <==> c in contacts && Contains(Lower(c.name), Lower(search))
      ensures r == Search(contacts, Lower(search))
      ensures search == [] ==> r == contacts
    {
      var term := Lower(search);
      SearchMembers(contacts, term);
      if term != [] then Search(contacts, term)
      else SearchEmptyTerm(contacts); contacts
    }

    /** `add_new_contact`: checks the name, its uniqueness, the phone and
        the email, and on success appends the record and rewrites the
        file. */
    method AddNewContact(data: Payload) returns (outcome: Outcome)
      modifies this
      ensures Reply(outcome, contacts) == AddSpec(old(contacts), data)
    {
      var loaded := contacts;
      if data.name.GetOr([]) == [] {
        return EmptyName;
      }
      if NameTaken(loaded, data.name.value) {
        return DuplicateName;
      }
      if !ValidPhone(data.phone.GetOr([])) {
        return InvalidPhone;
      }
      if !ValidEmail(data.email.GetOr([])) {
        return InvalidEmail;
      }
      loaded := loaded + [Contact(data.name.value, data.phone.value, data.email.GetOr([]))];
      contacts := loaded;
      return Ok;
    }

    /** `update_existing_contact`: finds the first record named `name` up
        to case, collects every field present in the body after checking
        it, and only then merges them into that record and rewrites the
        file. */
    method UpdateExistingContact(name: string, data: Payload) returns (outcome: Outcome)
      modifies this
      ensures Reply(outcome, contacts) == UpdateSpec(old(contacts), name, data)
    {
      var loaded := contacts;
      var found := FindByName(loaded, name);
      if found.None? {
        return NotFound;
      }
      var index := found.value;
      var updates := Payload(None, None, None);
      if data.name.Some? {
        if NameTakenElsewhere(loaded, data.name.value, index) {
          return DuplicateName;
        }
        updates := updates.(name := data.name);
      }
      if data.phone.Some? {
        if !ValidPhone(data.phone.value) {
          return InvalidPhone;
        }
        updates := updates.(phone := data.phone);
      }
      if data.email.Some? {
        if !ValidEmail(data.email.value) {
          return InvalidEmail;
        }
        updates := updates.(email := data.email);
      }
      assert updates == data;
      loaded := loaded[index := Merge(loaded[index], updates)];
      contacts := loaded;
      return Ok;
    }
  }

  /** Adding Alice to an empty file stores her record. */
  lemma AddAlice()
    ensures AddSpec([], Payload(Some("Alice"), Some("5551234"), Some("")))
         == Reply(Ok, [Contact("Alice", "5551234", "")])
  {
    ValidPhoneExamples();
  }

  /** A request whose three fields pass every check appends its record. */
  lemma AddAccepts(contacts: seq<Contact>, c: Contact)
    requires c.name != [] && !NameTaken(contacts, c.name)
    requires ValidPhone(c.phone) && ValidEmail(c.email)
    ensures AddSpec(contacts, Payload(Some(c.name), Some(c.phone), Some(c.email)))
         == Reply(Ok, contacts + [c])
  {
  }

  /** Starting from an empty file, adding two valid records with different
      names and then changing the first one's phone, naming it in any case,
      leaves both records in the order added, with only that phone
      changed. */
  lemma AddTwoThenUpdatePhone(a: Contact, b: Contact, key: string, phone: string)
    requires a.name != [] && b.name != [] && !SameName(a.name, b.name)
    requires ValidContact(a) && ValidContact(b)
    requires SameName(key, a.name) && ValidPhone(phone)
    ensures var r1 := AddSpec([], Payload(Some(a.name), Some(a.phone), Some(a.email)));
      var r2 := AddSpec(r1.contacts, Payload(Some(b.name), Some(b.phone), Some(b.email)));
      var r3 := UpdateSpec(r2.contacts, key, Payload(None, Some(phone), None));
      r1.outcome == Ok && r2.outcome == Ok && r3.outcome == Ok &&
      r3.contacts == [a.(phone := phone), b]
  {
    AddAccepts([], a);
    assert [] + [a] == [a];
    assert !NameTaken([a], b.name);
    AddAccepts([a], b);
    assert [a] + [b] == [a, b];
    assert FindByName([a, b], key) == Some(0);
  }
}
