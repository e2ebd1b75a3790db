/** The command-line shell's list operations: `add_contact`,
    `search_contacts` and `update_contact`. Each `input()` prompt becomes a
    parameter holding the raw line typed, and each printed message becomes
    an `Outcome`. The list the menu loop passes around by reference is the
    field of a `ContactBook`. */
module ContactManager {
  import opened Text
  import opened Validation
  import opened Contacts

  /** "press Enter to keep current": a blank answer keeps the current value. */
  function OrKeep(answer: string, current: string): string {
    if answer == [] then current else answer
  }

  /** What `add_contact` does to the list, given the three lines typed. */
  function AddSpec(contacts: seq<Contact>, rawName: string, rawPhone: string, rawEmail: string): (r: Reply)
    ensures r.outcome in {Ok, EmptyName, DuplicateName, InvalidPhone, InvalidEmail}
    ensures r.outcome != Ok ==> r.contacts == contacts
    ensures r.outcome == EmptyName <==> Strip(rawName) == []
    ensures r.outcome == DuplicateName <==> Strip(rawName) != [] && NameTaken(contacts, Strip(rawName))
    ensures r.outcome == InvalidPhone <==>
      Strip(rawName) != [] && !NameTaken(contacts, Strip(rawName)) && !ValidPhone(Strip(rawPhone))
    ensures r.outcome == InvalidEmail <==>
      Strip(rawName) != [] && !NameTaken(contacts, Strip(rawName)) &&
      ValidPhone(Strip(rawPhone)) && !ValidEmail(Strip(rawEmail))
    ensures r.outcome == Ok <==>
      Strip(rawName) != [] && !NameTaken(contacts, Strip(rawName)) &&
      ValidPhone(Strip(rawPhone)) && ValidEmail(Strip(rawEmail))
    ensures r.outcome == Ok ==>
      r.contacts == contacts + [Contact(Strip(rawName), Strip(rawPhone), Strip(rawEmail))]
  {
    var name := Strip(rawName);
    if name == [] then Reply(EmptyName, contacts)
    else if NameTaken(contacts, name) then Reply(DuplicateName, contacts)
    else
      var phone := Strip(rawPhone);
      if !ValidPhone(phone) then Reply(InvalidPhone, contacts)
      else
        var email := Strip(rawEmail);
        if !ValidEmail(email) then Reply(InvalidEmail, contacts)
        else Reply(Ok, contacts + [Contact(name, phone, email)])
  }

  /** Adding keeps names unique up to case. */
  lemma AddKeepsNamesUnique(contacts: seq<Contact>, rawName: string, rawPhone: string, rawEmail: string)
    requires UniqueNames(contacts)
    ensures UniqueNames(AddSpec(contacts, rawName, rawPhone, rawEmail).contacts)
  {
    var r := AddSpec(contacts, rawName, rawPhone, rawEmail);
    if r.outcome == Ok {
      var added := Contact(Strip(rawName), Strip(rawPhone), Strip(rawEmail));
      AppendKeepsNamesUnique(contacts, added);
    }
  }

  /** Adding keeps every record valid and every name non-empty. */
  lemma AddKeepsValidNamed(contacts: seq<Contact>, rawName: string, rawPhone: string, rawEmail: string)
    ensures var r := AddSpec(contacts, rawName, rawPhone, rawEmail);
      (AllValid(contacts) ==> AllValid(r.contacts)) &&
      (AllNamed(contacts) ==> AllNamed(r.contacts))
  {
    var r := AddSpec(contacts, rawName, rawPhone, rawEmail);
    if r.outcome == Ok {
      var added := Contact(Strip(rawName), Strip(rawPhone), Strip(rawEmail));
      assert ValidContact(added) && added.name != [];
      AppendKeepsValidNamed(contacts, added);
    }
  }

  /** The records `update_contact` offers for selection, by position. */
  function Candidates(contacts: seq<Contact>, rawTerm: string): (r: seq<nat>)
    ensures forall k | 0 <= k < |r| :: r[k] < |contacts|
    ensures forall i | 0 <= i < |contacts| ::
      i in r <==> Contains(Lower(contacts[i].name), Lower(Strip(rawTerm)))
    ensures forall k, l | 0 <= k < l < |r| :: r[k] < r[l]
  {
    MatchIndices(contacts, Lower(Strip(rawTerm)))
  }

  /** What `update_contact` does once record `i` is selected, given the
      stripped answers: the name, phone and email answers are checked and
      applied one after the other, a blank answer keeping the current
      value, and the first rejected answer stops the update with the
      earlier ones already applied. A new name is rejected when any record,
      the selected one included, already has it up to case. */
  function ApplyAnswers(contacts: seq<Contact>, i: nat, name: string, phone: string, email: string): (r: Reply)
    requires i < |contacts|
    ensures |r.contacts| == |contacts|
    ensures r.outcome in {Ok, DuplicateName, InvalidPhone, InvalidEmail}
    ensures forall j | 0 <= j < |contacts| && j != i :: r.contacts[j] == contacts[j]
    ensures r.outcome == DuplicateName <==> name != [] && NameTaken(contacts, name)
    ensures r.outcome == DuplicateName ==> r.contacts == contacts
    ensures r.outcome == InvalidPhone <==>
      !(name != [] && NameTaken(contacts, name)) && phone != [] && !ValidPhone(phone)
    ensures r.outcome == InvalidEmail <==>
      !(name != [] && NameTaken(contacts, name)) && (phone != [] ==> ValidPhone(phone)) &&
      email != [] && !ValidEmail(email)
    ensures r.outcome == Ok <==>
      !(name != [] && NameTaken(contacts, name)) &&
      (phone != [] ==> ValidPhone(phone)) && (email != [] ==> ValidEmail(email))
    ensures r.outcome == Ok ==>
      r.contacts[i] == Contact(OrKeep(name, contacts[i].name), OrKeep(phone, contacts[i].phone),
                               OrKeep(email, contacts[i].email))
  {
    var current := contacts[i];
    var renamed := current.(name := OrKeep(name, current.name));
    var rephoned := renamed.(phone := OrKeep(phone, current.phone));
    if name != [] && NameTaken(contacts, name) then Reply(DuplicateName, contacts)
    else if phone != [] && !ValidPhone(phone) then Reply(InvalidPhone, contacts[i := renamed])
    else if email != [] && !ValidEmail(email) then Reply(InvalidEmail, contacts[i := rephoned])
    else Reply(Ok, contacts[i := rephoned.(email := OrKeep(email, current.email))])
  }

  /** Renaming the selected record to its own name, in any case, is
      rejected as a duplicate and changes nothing. */
  lemma ApplyAnswersRejectsOwnName(contacts: seq<Contact>, i: nat, name: string, phone: string, email: string)
    requires i < |contacts| && name != [] && SameName(contacts[i].name, name)
    ensures ApplyAnswers(contacts, i, name, phone, email) == Reply(DuplicateName, contacts)
  {
    assert NameTaken(contacts, name) by {
      assert SameName(contacts[i].name, name);
    }
  }

  /** A field answered blank keeps its value, whatever the outcome; a
      rejected phone leaves an accepted new name in the list, and a
      rejected email leaves an accepted new name and phone. */
  lemma ApplyAnswersKeepsEarlierAnswers(contacts: seq<Contact>, i: nat, name: string, phone: string, email: string)
    requires i < |contacts|
    ensures var r := ApplyAnswers(contacts, i, name, phone, email);
      (name == [] ==> r.contacts[i].name == contacts[i].name) &&
      (phone == [] ==> r.contacts[i].phone == contacts[i].phone) &&
      (email == [] ==> r.contacts[i].email == contacts[i].email) &&
      (r.outcome == InvalidPhone ==>
        r.contacts[i] == contacts[i].(name := OrKeep(name, contacts[i].name))) &&
      (r.outcome == InvalidEmail ==>
        r.contacts[i] == contacts[i].(name := OrKeep(name, contacts[i].name),
                                      phone := OrKeep(phone, contacts[i].phone)))
  {
  }

  /** Whatever the outcome, the answers keep names unique up to case, keep
      every record valid and keep every name non-empty. */
  lemma ApplyAnswersKeepsInvariants(contacts: seq<Contact>, i: nat, name: string, phone: string, email: string)
    requires i < |contacts|
    ensures var r := ApplyAnswers(contacts, i, name, phone, email);
      (UniqueNames(contacts) ==> UniqueNames(r.contacts)) &&
      (AllValid(contacts) ==> AllValid(r.contacts)) &&
      (AllNamed(contacts) ==> AllNamed(r.contacts))
  {
    var r := ApplyAnswers(contacts, i, name, phone, email);
    if r.outcome != DuplicateName {
      var c := r.contacts[i];
      assert r.contacts == contacts[i := c];
      assert c.name == OrKeep(name, contacts[i].name);
      if UniqueNames(contacts) {
        if name != [] {
          RenameKeepsNamesUnique(contacts, i, name);
          assert r.contacts == contacts[i := contacts[i].(name := name)][i := c];
        } else {
          assert r.contacts == contacts[i := contacts[i].(name := contacts[i].name)][i := c];
        }
      }
    }
  }

  /** What `update_contact` does to the list: the record is chosen by a
      1-based `selection` among the records whose name contains the
      stripped, lower-cased term, then the stripped answers are applied to
      it. */
  function UpdateSpec(contacts: seq<Contact>, rawTerm: string, selection: int,
                      rawName: string, rawPhone: string, rawEmail: string): (r: Reply)
    ensures r.outcome == NotFound <==> Candidates(contacts, rawTerm) == []
    ensures r.outcome == InvalidSelection <==>
      Candidates(contacts, rawTerm) != [] && !(1 <= selection <= |Candidates(contacts, rawTerm)|)
    ensures r.outcome in {NotFound, InvalidSelection} ==> r.contacts == contacts
    ensures r.outcome !in {NotFound, InvalidSelection} ==>
      1 <= selection <= |Candidates(contacts, rawTerm)| &&
      r == ApplyAnswers(contacts, Candidates(contacts, rawTerm)[selection - 1],
                        Strip(rawName), Strip(rawPhone), Strip(rawEmail))
  {
    var matches := Candidates(contacts, rawTerm);
    if |matches| == 0 then Reply(NotFound, contacts)
    else if !(1 <= selection <= |matches|) then Reply(InvalidSelection, contacts)
    else ApplyAnswers(contacts, matches[selection - 1], Strip(rawName), Strip(rawPhone), Strip(rawEmail))
  }

  /** Whatever the outcome, updating keeps names unique up to case, keeps
      every record valid and keeps every name non-empty. */
  lemma UpdateKeepsInvariants(contacts: seq<Contact>, rawTerm: string, selection: int,
                              rawName: string, rawPhone: string, rawEmail: string)
    ensures var r := UpdateSpec(contacts, rawTerm, selection, rawName, rawPhone, rawEmail);
      (UniqueNames(contacts) ==> UniqueNames(r.contacts)) &&
      (AllValid(contacts) ==> AllValid(r.contacts)) &&
      (AllNamed(contacts) ==> AllNamed(r.contacts))
  {
    var matches := Candidates(contacts, rawTerm);
    if |matches| > 0 && 1 <= selection <= |matches| {
      ApplyAnswersKeepsInvariants(contacts, matches[selection - 1], Strip(rawName), Strip(rawPhone), Strip(rawEmail));
    }
  }

  /** The list the menu loop owns, with the operations that change it. */
  class ContactBook {
    var contacts: seq<Contact>

    /** The menu starts from whatever `load_contacts` returned. */
    constructor (loaded: seq<Contact>)
      ensures contacts == loaded
    {
      contacts := loaded;
    }

    /** `add_contact`: checks the stripped name, then the stripped phone,
        then the stripped email, and appends the record in place. */
    method AddContact(rawName: string, rawPhone: string, rawEmail: string) returns (outcome: Outcome)
      modifies this
      ensures Reply(outcome, contacts) == AddSpec(old(contacts), rawName, rawPhone, rawEmail)
    {
      var name := Strip(rawName);
      if name == [] {
        return EmptyName;
      }
      if NameTaken(contacts, name) {
        return DuplicateName;
      }
      var phone := Strip(rawPhone);
      if !ValidPhone(phone) {
        return InvalidPhone;
      }
      var email := Strip(rawEmail);
      if !ValidEmail(email) {
        return InvalidEmail;
      }
      contacts := contacts + [Contact(name, phone, email)];
      return Ok;
    }

    /** `search_contacts`: the records whose name contains the stripped,
        lower-cased term, in list order; a blank term lists every record. */
    function SearchContacts(rawTerm: string): (r: seq<Contact>)
      reads this
      ensures forall c :: c in r <==> c in contacts && Contains(Lower(c.name), Lower(Strip(rawTerm)))
      ensures r == Search(contacts, Lower(Strip(rawTerm)))
      ensures Strip(rawTerm) == [] ==> r == contacts
    {
      var term := Lower(Strip(rawTerm));
      SearchMembers(contacts, term);
      if term == [] then SearchEmptyTerm(contacts); Search(contacts, term)
      else Search(contacts, term)
    }

    /** `update_contact`: selects a record among the matches, then checks
        and stores the answers. */
    method UpdateContact(rawTerm: string, selection: int, rawName: string, rawPhone: string, rawEmail: string)
      returns (outcome: Outcome)
      modifies this
      ensures Reply(outcome, contacts) == UpdateSpec(old(contacts), rawTerm, selection, rawName, rawPhone, rawEmail)
    {
      var matches := MatchIndices(contacts, Lower(Strip(rawTerm)));
      if |matches| == 0 {
        return NotFound;
      }
      if !(1 <= selection <= |matches|) {
        return InvalidSelection;
      }
      outcome := StoreAnswers(matches[selection - 1], Strip(rawName), Strip(rawPhone), Strip(rawEmail));
    }

    /** The second half of `update_contact`: checks the name, the phone and
        the email answer in turn, changing record `i` in place after each
        accepted answer and stopping at the first rejected one. */
    method StoreAnswers(i: nat, newName: string, newPhone: string, newEmail: string) returns (outcome: Outcome)
      requires i < |contacts|
      modifies this
      ensures Reply(outcome, contacts) == ApplyAnswers(old(contacts), i, newName, newPhone, newEmail)
    {
      ghost var before := contacts;
      ghost var r := ApplyAnswers(before, i, newName, newPhone, newEmail);
      if newName != [] {
        if NameTaken(contacts, newName) {
          return DuplicateName;
        }
        contacts := contacts[i := contacts[i].(name := newName)];
      }
      assert contacts == before[i := before[i].(name := OrKeep(newName, before[i].name))];
      if newPhone != [] {
        if !ValidPhone(newPhone) {
          assert r.outcome == InvalidPhone;
          return InvalidPhone;
        }
        contacts := contacts[i := contacts[i].(phone := newPhone)];
      }
      assert contacts[i] == before[i].(name := OrKeep(newName, before[i].name),
                                       phone := OrKeep(newPhone, before[i].phone));
      if newEmail != [] {
        if !ValidEmail(newEmail) {
          assert r.outcome == InvalidEmail;
          return InvalidEmail;
        }
        contacts := contacts[i := contacts[i].(email := newEmail)];
      }
      assert r.outcome == Ok;
      assert contacts[i] == r.contacts[i];
      assert forall j | 0 <= j < |contacts| :: contacts[j] == r.contacts[j];
      return Ok;
    }
  }
}
