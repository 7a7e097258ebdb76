/**
 * The contact store the application actually runs (contact_book.py, the
 * second `Contact` and `ContactBook`): four fixed attributes per contact,
 * no validation and no file; the list may hold the same object twice.
 * Contacts are compared by identity, as Python does for objects without `__eq__`.
 */
module LiveContactStore {
  import opened Wrappers
  import opened Text
  import opened Seqs

  /** A contact; nothing in the live store changes one after it is made. */
  class Contact {
    const name: string
    const phone: string
    const email: string
    const address: string

    constructor (name: string, phone: string, email: string, address: string)
      ensures this.name == name && this.phone == phone && this.email == email && this.address == address
    {
      this.name, this.phone, this.email, this.address := name, phone, email, address;
    }

    /** `str(contact)`: the four attributes joined by " | ". */
    function ToString(): (r: string)
      ensures |r| == |name| + |phone| + |email| + |address| + 9
      ensures r[..|name|] == name && r[|name|..|name| + 3] == " | "
      ensures r[|r| - |address|..] == address
    {
      name + " | " + phone + " | " + email + " | " + address
    }
  }

  /**
   * The test of `search_contacts`: the lowered keyword occurs in the lowered
   * `str(c)`. The empty keyword hits every contact, and a hitting keyword is
   * no longer than `str(c)`.
   */
  function Hit(c: Contact, keyword: string): (b: bool)
    ensures keyword == "" ==> b
    ensures b ==> |keyword| <= |c.ToString()|
  {
    ContainsEmpty(Lower(c.ToString()));
    Contains(Lower(c.ToString()), Lower(keyword))
  }

  /** `[c for c in cs if keyword.lower() in str(c).lower()]`. */
  function Filter(cs: seq<Contact>, keyword: string): (r: seq<Contact>)
    ensures |r| <= |cs|
  {
    if cs == [] then []
    else Filter(cs[..|cs| - 1], keyword) + (if Hit(cs[|cs| - 1], keyword) then [cs[|cs| - 1]] else [])
  }

  /** A contact is kept exactly when it is in the list and hits the keyword. */
  lemma {:induction false} FilterMembers(cs: seq<Contact>, keyword: string)
    ensures forall i | 0 <= i < |Filter(cs, keyword)| ::
      Filter(cs, keyword)[i] in cs && Hit(Filter(cs, keyword)[i], keyword)
    ensures forall i | 0 <= i < |cs| :: Hit(cs[i], keyword) ==> cs[i] in Filter(cs, keyword)
  {
    if cs != [] {
      var init, last := cs[..|cs| - 1], cs[|cs| - 1];
      assert cs == init + [last];
      FilterMembers(init, keyword);
      var r0 := Filter(init, keyword);
      var r := Filter(cs, keyword);
      assert r == r0 + (if Hit(last, keyword) then [last] else []);
      forall i | 0 <= i < |r| ensures r[i] in cs && Hit(r[i], keyword) {
        if i < |r0| { assert r[i] == r0[i]; }
      }
      forall i | 0 <= i < |cs| && Hit(cs[i], keyword) ensures cs[i] in r {
        if i < |init| { assert cs[i] == init[i]; }
      }
    }
  }

  /**
   * Each contact is kept as many times as the list holds it when it hits the
   * keyword, and not at all otherwise.
   */
  lemma {:induction false} FilterCount(cs: seq<Contact>, keyword: string)
    ensures forall x :: multiset(Filter(cs, keyword))[x] == if Hit(x, keyword) then multiset(cs)[x] else 0
  {
    if cs != [] {
      var init, last := cs[..|cs| - 1], cs[|cs| - 1];
      assert cs == init + [last];
      FilterCount(init, keyword);
      assert multiset(cs) == multiset(init) + multiset{last};
      assert multiset(Filter(cs, keyword))
        == multiset(Filter(init, keyword)) + (if Hit(last, keyword) then multiset{last} else multiset{});
    }
  }

  /** The kept contacts appear in list order. */
  lemma {:induction false} FilterEmbeds(cs: seq<Contact>, keyword: string) returns (idx: seq<nat>)
    ensures Embeds(idx, Filter(cs, keyword), cs)
  {
    if cs == [] {
      idx := [];
    } else {
      var init, last := cs[..|cs| - 1], cs[|cs| - 1];
      var idx0 := FilterEmbeds(init, keyword);
      assert cs == init + [last];
      EmbedsSnoc(idx0, Filter(init, keyword), init, last, Hit(last, keyword));
      idx := if Hit(last, keyword) then idx0 + [|init|] else idx0;
    }
  }

  lemma FilterInOrder(cs: seq<Contact>, keyword: string)
    ensures IsSubsequence(Filter(cs, keyword), cs)
  {
    var idx := FilterEmbeds(cs, keyword);
  }

  /** A keyword every contact hits keeps the whole list, repeats included. */
  lemma {:induction false} FilterAll(cs: seq<Contact>, keyword: string)
    requires forall i | 0 <= i < |cs| :: Hit(cs[i], keyword)
    ensures Filter(cs, keyword) == cs
  {
    if cs != [] {
      var init, last := cs[..|cs| - 1], cs[|cs| - 1];
      forall i | 0 <= i < |init| ensures Hit(init[i], keyword) {
        assert init[i] == cs[i];
      }
      FilterAll(init, keyword);
      assert Hit(last, keyword);
      assert Filter(cs, keyword) == init + [last];
      assert cs == init + [last];
    }
  }

  /** A keyword found in one lowered attribute is found in the lowered `str(c)`. */
  lemma AttributeHit(c: Contact, keyword: string)
    requires || Contains(Lower(c.name), Lower(keyword))
             || Contains(Lower(c.phone), Lower(keyword))
             || Contains(Lower(c.email), Lower(keyword))
             || Contains(Lower(c.address), Lower(keyword))
    ensures Hit(c, keyword)
  {
    var q := Lower(keyword);
    var sep := " | ";
    var a := c.name + sep;
    var b := a + c.phone + sep;
    var d := b + c.email + sep;
    assert c.ToString() == d + c.address;
    LowerConcat(c.name, sep);
    LowerConcat(a, c.phone);
    LowerConcat(a + c.phone, sep);
    LowerConcat(b, c.email);
    LowerConcat(b + c.email, sep);
    LowerConcat(d, c.address);
    if Contains(Lower(c.name), q) {
      ContainsInConcat(Lower(c.name), Lower(sep), q);
      ContainsInConcat(Lower(a), Lower(c.phone), q);
      ContainsInConcat(Lower(a + c.phone), Lower(sep), q);
      ContainsInConcat(Lower(b), Lower(c.email), q);
      ContainsInConcat(Lower(b + c.email), Lower(sep), q);
      ContainsInConcat(Lower(d), Lower(c.address), q);
    } else if Contains(Lower(c.phone), q) {
      ContainsInConcat(Lower(a), Lower(c.phone), q);
      ContainsInConcat(Lower(a + c.phone), Lower(sep), q);
      ContainsInConcat(Lower(b), Lower(c.email), q);
      ContainsInConcat(Lower(b + c.email), Lower(sep), q);
      ContainsInConcat(Lower(d), Lower(c.address), q);
    } else if Contains(Lower(c.email), q) {
      ContainsInConcat(Lower(b), Lower(c.email), q);
      ContainsInConcat(Lower(b + c.email), Lower(sep), q);
      ContainsInConcat(Lower(d), Lower(c.address), q);
    } else {
      ContainsInConcat(Lower(d), Lower(c.address), q);
    }
  }

  /** The separator is part of `str(c)`, so the keyword "|" hits every contact. */
  lemma SeparatorHitsAll(c: Contact)
    ensures Hit(c, "|")
  {
    var s := Lower(c.ToString());
    var n := |c.name|;
    assert c.ToString()[n + 1] == '|';
    assert s[n + 1..n + 2] == Lower("|");
  }

  /** Searching for "|" or for "" returns the whole list. */
  lemma SeparatorOrEmptyKeepsAll(cs: seq<Contact>)
    ensures Filter(cs, "|") == cs
    ensures Filter(cs, "") == cs
  {
    forall i | 0 <= i < |cs| ensures Hit(cs[i], "|") && Hit(cs[i], "") {
      SeparatorHitsAll(cs[i]);
      ContainsEmpty(Lower(cs[i].ToString()));
    }
    FilterAll(cs, "|");
    FilterAll(cs, "");
  }

  /** The phones of the list, in order. */
  function Phones(cs: seq<Contact>): (ps: seq<string>)
    ensures |ps| == |cs| && forall i | 0 <= i < |cs| :: ps[i] == cs[i].phone
  {
    seq(|cs|, i requires 0 <= i < |cs| => cs[i].phone)
  }

  /** The live contact book: a plain list of contacts. */
  class ContactBook {
    var contacts: seq<Contact>

    constructor ()
      ensures contacts == []
    {
      contacts := [];
    }

    /** `add_contact`: append, whatever the contact; a repeat is kept. */
    method AddContact(c: Contact)
      modifies this
      ensures contacts == old(contacts) + [c]
    {
      contacts := contacts + [c];
    }

    /** `delete_contact`: remove the first occurrence of `c`, if there is one. */
    method DeleteContact(c: Contact)
      modifies this
      ensures c in old(contacts) ==>
        var i := IndexOf(old(contacts), c);
        contacts == old(contacts)[..i] + old(contacts)[i + 1..]
      ensures c !in old(contacts) ==> contacts == old(contacts)
    {
      if c in contacts {
        var i := IndexOf(contacts, c);
        contacts := contacts[..i] + contacts[i + 1..];
      }
    }

    /** `edit_contact`: overwrite the first occurrence of `oldContact` in place, if there is one. */
    method EditContact(oldContact: Contact, newContact: Contact)
      modifies this
      ensures oldContact in old(contacts) ==>
        contacts == old(contacts)[IndexOf(old(contacts), oldContact) := newContact]
      ensures oldContact !in old(contacts) ==> contacts == old(contacts)
    {
      var i := 0;
      while i < |contacts|
        invariant 0 <= i <= |contacts| && contacts == old(contacts)
        invariant oldContact !in contacts[..i]
      {
        if contacts[i] == oldContact {
          assert IndexOf(contacts, oldContact) == i;
          contacts := contacts[i := newContact];
          return;
        }
        assert contacts[..i + 1] == contacts[..i] + [contacts[i]];
        i := i + 1;
      }
      assert contacts[..i] == contacts;
    }

    /**
     * `search_contacts`: the contacts whose lowered `str` contains the lowered
     * keyword, in list order, each as often as the list holds it; the list is
     * not changed.
     */
    function SearchContacts(keyword: string): (r: seq<Contact>)
      reads this
      ensures forall i | 0 <= i < |r| :: r[i] in contacts && Hit(r[i], keyword)
      ensures forall i | 0 <= i < |contacts| :: Hit(contacts[i], keyword) ==> contacts[i] in r
      ensures IsSubsequence(r, contacts)
      ensures forall i | 0 <= i < |contacts| ::
        multiset(r)[contacts[i]] == if Hit(contacts[i], keyword) then multiset(contacts)[contacts[i]] else 0
    {
      FilterMembers(contacts, keyword);
      FilterCount(contacts, keyword);
      FilterInOrder(contacts, keyword);
      Filter(contacts, keyword)
    }

    /**
     * `get_contact_by_phone`: the first contact whose stripped phone equals
     * the stripped argument, or None; the list is not changed.
     */
    method GetContactByPhone(phone: string) returns (r: Option<Contact>)
      ensures r.None? <==> FindTrimmed(Phones(contacts), phone).None?
      ensures r.Some? ==> r.value == contacts[FindTrimmed(Phones(contacts), phone).value]
    {
      var key := Trim(phone);
      var i := 0;
      while i < |contacts|
        invariant 0 <= i <= |contacts|
        invariant forall j | 0 <= j < i :: Trim(Phones(contacts)[j]) != key
      {
        if Trim(contacts[i].phone) == key {
          return Some(contacts[i]);
        }
        i := i + 1;
      }
      return None;
    }
  }
}
