/**
 * The contacts page: a contact is added when its name is not blank; the inputs are stored as
 * typed and then cleared.
 */
module Contacts {
  import Text
  import Numbers

  /** A contact as the page lists it. */
  datatype Contact = Contact(id: string, name: string, email: string, phone: string, company: string, notes: string)

  /** Every listed contact has a name with a character that is not white space. */
  ghost predicate NamesPresent(cs: seq<Contact>)
  {
    forall i :: 0 <= i < |cs| ==> !Text.IsBlank(cs[i].name)
  }

  /** The page's state. */
  class ContactsPage {
    var contacts: seq<Contact>
    var name: string
    var email: string
    var phone: string
    var company: string
    var notes: string

    constructor ()
      ensures contacts == [] && name == "" && email == "" && phone == "" && company == "" && notes == ""
    {
      contacts := [];
      name, email, phone, company, notes := "", "", "", "", "";
    }

    /**
     * `addContact`: with a name that is not blank, the contact is appended, untrimmed, under the
     * id `String(now)` and the five inputs are cleared; with a blank name nothing changes.
     */
    method AddContact(now: int)
      modifies this
      ensures Text.IsBlank(old(name)) ==>
        && contacts == old(contacts) && name == old(name) && email == old(email)
        && phone == old(phone) && company == old(company) && notes == old(notes)
      ensures !Text.IsBlank(old(name)) ==>
        && contacts == old(contacts) + [Contact(Numbers.IntText(now), old(name), old(email), old(phone), old(company), old(notes))]
        && name == "" && email == "" && phone == "" && company == "" && notes == ""
      ensures NamesPresent(old(contacts)) ==> NamesPresent(contacts)
    {
      if !Text.IsBlank(name) {
        var c := Contact(Numbers.IntText(now), name, email, phone, company, notes);
        NamesPresentSnoc(contacts, c);
        contacts := contacts + [c];
        Clear();
      }
    }

    /** The five inputs cleared after an add; the list stays as it is. */
    method Clear()
      modifies this
      ensures name == "" && email == "" && phone == "" && company == "" && notes == ""
      ensures contacts == old(contacts)
    {
      name, email, phone, company, notes := "", "", "", "", "";
    }
  }

  /** Appending a contact with a name keeps every listed contact named. */
  lemma NamesPresentSnoc(cs: seq<Contact>, c: Contact)
    requires !Text.IsBlank(c.name)
    ensures NamesPresent(cs) ==> NamesPresent(cs + [c])
  {
    if NamesPresent(cs) {
      forall i | 0 <= i < |cs + [c]| ensures !Text.IsBlank((cs + [c])[i].name) {
        if i < |cs| {
          assert (cs + [c])[i] == cs[i];
        }
      }
    }
  }
}
