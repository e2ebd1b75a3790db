/** The contact record, the outcome tags the two front ends report, and
    what both front ends share about the ordered list of records: the
    case-insensitive name key and the name search. */
module Contacts {
  import opened Text
  import opened Validation

  datatype Option<T> = None | Some(value: T) {
    /** `d.get(key, default)` */
    function GetOr(default: T): T {
      match this
      case Some(v) => v
      case None => default
    }
  }

  /** One `{name, phone, email}` record. */
  datatype Contact = Contact(name: string, phone: string, email: string)

  /** What an operation reports: success, or the message it prints (in the
      command-line shell) or returns with status 400 or 404 (in the web
      handlers). */
  datatype Outcome =
    | Ok
    | EmptyName
    | DuplicateName
    | InvalidPhone
    | InvalidEmail
    | NotFound
    | InvalidSelection

  /** The outcome of an operation together with the list it leaves. */
  datatype Reply = Reply(outcome: Outcome, contacts: seq<Contact>)

  /** `a.lower() == b.lower()` */
  predicate SameName(a: string, b: string) {
    Lower(a) == Lower(b)
  }

  /** `any(c['name'].lower() == name.lower() for c in contacts)` */
  predicate NameTaken(contacts: seq<Contact>, name: string) {
    exists i | 0 <= i < |contacts| :: SameName(contacts[i].name, name)
  }

  /** No two records share a name up to case: the key of the collection. */
  predicate UniqueNames(contacts: seq<Contact>) {
    forall i, j | 0 <= i < j < |contacts| :: !SameName(contacts[i].name, contacts[j].name)
  }

  /** The field rules a record meets when it was written by a shell. */
  predicate ValidContact(c: Contact) {
    ValidPhone(c.phone) && ValidEmail(c.email)
  }

  predicate AllValid(contacts: seq<Contact>) {
    forall i | 0 <= i < |contacts| :: ValidContact(contacts[i])
  }

  /** Every record has a non-empty name. */
  predicate AllNamed(contacts: seq<Contact>) {
    forall i | 0 <= i < |contacts| :: contacts[i].name != []
  }

  /** `term in c['name'].lower()`, for a term already folded to lower case. */
  predicate NameContains(c: Contact, term: string) {
    Contains(Lower(c.name), term)
  }

  /** The positions of the records whose name contains `term`, in
      increasing order: the records of the comprehension
      `[c for c in contacts if term in c['name'].lower()]`, by position. */
  function MatchIndices(contacts: seq<Contact>, term: string): (r: seq<nat>)
    ensures |r| <= |contacts|
    ensures forall k | 0 <= k < |r| :: r[k] < |contacts| && NameContains(contacts[r[k]], term)
    ensures forall k, l | 0 <= k < l < |r| :: r[k] < r[l]
    ensures forall i | 0 <= i < |contacts| && NameContains(contacts[i], term) :: i in r
    decreases |contacts|
  {
    if |contacts| == 0 then []
    else
      var last := |contacts| - 1;
      var prior := MatchIndices(contacts[..last], term);
      if NameContains(contacts[last], term) then prior + [last] else prior
  }

  /** The records at the given positions, in the order of the positions. */
  function Pick(contacts: seq<Contact>, indices: seq<nat>): (r: seq<Contact>)
    requires forall k | 0 <= k < |indices| :: indices[k] < |contacts|
    ensures |r| == |indices|
    ensures forall k | 0 <= k < |r| :: r[k] == contacts[indices[k]]
  {
    seq(|indices|, k requires 0 <= k < |indices| => contacts[indices[k]])
  }

  /** The records whose name contains `term` (a term already folded to
      lower case), in the order of the list. */
  function Search(contacts: seq<Contact>, term: string): (r: seq<Contact>)
    ensures |r| <= |contacts|
  {
    Pick(contacts, MatchIndices(contacts, term))
  }

  /** A record is found exactly when it is in the list and its name
      contains the term. */
  lemma SearchMembers(contacts: seq<Contact>, term: string)
    ensures forall c :: c in Search(contacts, term) <==> c in contacts && NameContains(c, term)
  {
    var indices := MatchIndices(contacts, term);
    var r := Search(contacts, term);
    forall c | c in contacts && NameContains(c, term) ensures c in r {
      var i :| 0 <= i < |contacts| && contacts[i] == c;
      var k :| 0 <= k < |indices| && indices[k] == i;
      assert r[k] == c;
    }
  }

  /** Search is a filter: extending the list by one record extends the
      result by that record exactly when its name matches. Together with
      `Search([], term) == []` this fixes the result and its order. */
  lemma SearchSnoc(contacts: seq<Contact>, c: Contact, term: string)
    ensures Search(contacts + [c], term)
         == Search(contacts, term) + (if NameContains(c, term) then [c] else [])
  {
    var extended := contacts + [c];
    assert extended[..|contacts|] == contacts;
    var prior := MatchIndices(contacts, term);
    var before := Search(contacts, term);
    var after := Search(extended, term);
    if NameContains(c, term) {
      assert MatchIndices(extended, term) == prior + [|contacts|];
      assert |after| == |before| + 1;
      assert forall k | 0 <= k < |before| :: after[k] == before[k];
      assert after[|before|] == c;
      assert after == before + [c];
    } else {
      assert MatchIndices(extended, term) == prior;
      assert forall k | 0 <= k < |before| :: after[k] == before[k];
      assert after == before;
    }
  }

  /** The empty term occurs in every name, so it selects the whole list in
      its order. */
  lemma {:induction false} SearchEmptyTerm(contacts: seq<Contact>)
    ensures Search(contacts, []) == contacts
    decreases |contacts|
  {
    if |contacts| > 0 {
      var last := |contacts| - 1;
      var prefix := contacts[..last];
      EmptyContained(Lower(contacts[last].name));
      assert NameContains(contacts[last], []);
      SearchEmptyTerm(prefix);
      SearchSnoc(prefix, contacts[last], []);
      assert prefix + [contacts[last]] == contacts;
    }
  }

  lemma JoOccurrences()
    ensures Contains(Lower("John"), "jo") && Contains(Lower("Joanna"), "jo")
    ensures !Contains(Lower("Mark"), "jo")
  {
    assert Lower("John")[..2] == "jo";
    assert Lower("Joanna")[..2] == "jo";
    var m := Lower("Mark");
    assert forall i | 0 <= i < |m| :: m[i] != 'j';
    MissingFirstChar(m, "jo");
  }

  /** Searching "jo" among John, Joanna and Mark finds John and Joanna,
      in that order. */
  lemma SearchExample(john: Contact, joanna: Contact, mark: Contact)
    requires john.name == "John" && joanna.name == "Joanna" && mark.name == "Mark"
    ensures Search([john, joanna, mark], "jo") == [john, joanna]
  {
    var one, two, three := [john], [john, joanna], [john, joanna, mark];
    assert [] + [john] == one && one + [joanna] == two && two + [mark] == three;
    JoOccurrences();
    SearchSnoc([], john, "jo");
    SearchSnoc(one, joanna, "jo");
    SearchSnoc(two, mark, "jo");
  }

  /** Appending a record whose name is not taken keeps the names unique. */
  lemma AppendKeepsNamesUnique(contacts: seq<Contact>, c: Contact)
    requires UniqueNames(contacts) && !NameTaken(contacts, c.name)
    ensures UniqueNames(contacts + [c])
  {
  }

  /** Appending a valid record with a non-empty name keeps every record
      valid and named. */
  lemma AppendKeepsValidNamed(contacts: seq<Contact>, c: Contact)
    requires ValidContact(c) && c.name != []
    ensures AllValid(contacts) ==> AllValid(contacts + [c])
    ensures AllNamed(contacts) ==> AllNamed(contacts + [c])
  {
  }

  /** Renaming record `i` to a name no other record has keeps the names
      unique. */
  lemma RenameKeepsNamesUnique(contacts: seq<Contact>, i: nat, name: string)
    requires i < |contacts| && UniqueNames(contacts)
    requires forall j | 0 <= j < |contacts| && j != i :: !SameName(contacts[j].name, name)
    ensures UniqueNames(contacts[i := contacts[i].(name := name)])
  {
  }
}
