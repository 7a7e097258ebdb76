/**
 * The full contact store of contact_book.py (the `Contact` record and the
 * `ContactBook` with file persistence): records, validated add, lookup by
 * stripped phone, search, update, delete, the name-sorted listing and
 * statistics. The clock is the `now` parameter; the JSON file is the `disk`
 * field holding what was last written.
 */
module ContactStore {
  import opened Wrappers
  import opened Text
  import opened Seqs
  import opened Sorting

  /** The seven attributes of a contact, as `to_dict` writes them. */
  datatype ContactData = ContactData(
    name: string, phone: string, email: string, address: string, notes: string,
    createdDate: string, lastModified: string)
  {
    /** `to_dict`: one entry per attribute. */
    function ToDict(): (m: map<string, string>)
      ensures m.Keys == RecordKeys
    {
      map["name" := name, "phone" := phone, "email" := email, "address" := address,
          "notes" := notes, "created_date" := createdDate, "last_modified" := lastModified]
    }

    /**
     * `from_dict`: `name` and `phone` must be present (a missing one is a
     * KeyError, `name` checked first); the other five default to "".
     */
    static function FromDict(m: map<string, string>): (r: Result<ContactData, StoreError>)
      ensures r.Failure? <==> "name" !in m || "phone" !in m
      ensures r.Failure? ==> r.error == MissingKey(if "name" !in m then "name" else "phone")
    {
      if "name" !in m then Failure(MissingKey("name"))
      else if "phone" !in m then Failure(MissingKey("phone"))
      else Success(ContactData(m["name"], m["phone"], Get(m, "email"), Get(m, "address"),
                               Get(m, "notes"), Get(m, "created_date"), Get(m, "last_modified")))
    }
  }

  const RecordKeys: set<string> :=
    {"name", "phone", "email", "address", "notes", "created_date", "last_modified"}

  /** `data.get(key, '')`. */
  function Get(m: map<string, string>, key: string): string {
    if key in m then m[key] else ""
  }

  /** The errors the store raises. */
  datatype StoreError =
    | MissingRequired          // ValueError: name and phone are required
    | DuplicatePhone           // ValueError: a contact with this phone already exists
    | MissingKey(key: string)  // KeyError from from_dict
    | RepeatedArgument(argument: string) // TypeError: got multiple values for an argument

  /** The backing file as `load_contacts` finds it. */
  datatype Stored =
    | Missing                                    // the path does not exist
    | Unparsable                                 // json.load raises JSONDecodeError
    | Json(records: seq<map<string, string>>)   // a JSON list of objects

  /** `from_dict` takes each attribute from its key, and `""` for a missing optional key. */
  lemma FromDictReadsKeys(m: map<string, string>)
    requires "name" in m && "phone" in m
    ensures ContactData.FromDict(m).Success?
    ensures forall k | k in RecordKeys :: ContactData.FromDict(m).value.ToDict()[k] == Get(m, k)
  {
  }

  /** A record written by `to_dict` reads back to the same seven values. */
  lemma FromDictToDict(d: ContactData)
    ensures ContactData.FromDict(d.ToDict()) == Success(d)
  {
  }

  /** `[Contact.from_dict(d) for d in data]`: stops at the first record that fails. */
  function DecodeAll(rs: seq<map<string, string>>): (r: Result<seq<ContactData>, StoreError>)
    ensures r.Success? <==> forall i | 0 <= i < |rs| :: ContactData.FromDict(rs[i]).Success?
    ensures r.Success? ==> |r.value| == |rs|
    ensures r.Success? ==> forall i | 0 <= i < |rs| :: ContactData.FromDict(rs[i]) == Success(r.value[i])
  {
    if rs == [] then Success([])
    else
      assert forall i | 1 <= i < |rs| :: rs[i] == rs[1..][i - 1];
      match ContactData.FromDict(rs[0])
      case Failure(e) => Failure(e)
      case Success(d) =>
        match DecodeAll(rs[1..])
        case Failure(e) => Failure(e)
        case Success(ds) => Success([d] + ds)
  }

  /** Decoding fails with the error of the first record that fails. */
  lemma {:induction false} DecodeAllFirstFailure(rs: seq<map<string, string>>, i: nat)
    requires i < |rs| && ContactData.FromDict(rs[i]).Failure?
    requires forall j | 0 <= j < i :: ContactData.FromDict(rs[j]).Success?
    ensures DecodeAll(rs) == Failure(ContactData.FromDict(rs[i]).error)
  {
    if i > 0 {
      assert forall j | 0 <= j < i - 1 :: rs[1..][j] == rs[j + 1];
      DecodeAllFirstFailure(rs[1..], i - 1);
    }
  }

  /**
   * What the store holds right after loading the backing file: nothing when
   * it is missing or unparsable, else the decoded records, failing exactly
   * when some record lacks `name` or `phone`.
   */
  function Loaded(disk: Stored): (r: Result<seq<ContactData>, StoreError>)
    ensures !disk.Json? ==> r == Success([])
    ensures disk.Json? ==> (r.Success? <==> forall i | 0 <= i < |disk.records| :: ContactData.FromDict(disk.records[i]).Success?)
    ensures r.Success? && disk.Json? ==> |r.value| == |disk.records|
  {
    match disk
    case Missing => Success([])
    case Unparsable => Success([])
    case Json(rs) => DecodeAll(rs)
  }

  /** `[contact.to_dict() for contact in self.contacts]`. */
  function Encode(ds: seq<ContactData>): (rs: seq<map<string, string>>)
    ensures |rs| == |ds| && forall i | 0 <= i < |ds| :: rs[i] == ds[i].ToDict()
    ensures forall i | 0 <= i < |rs| :: rs[i].Keys == RecordKeys
  {
    seq(|ds|, i requires 0 <= i < |ds| => ds[i].ToDict())
  }

  /** Whatever is saved loads back unchanged, timestamps included. */
  lemma SaveThenLoad(ds: seq<ContactData>)
    ensures Loaded(Json(Encode(ds))) == Success(ds)
  {
    var rs := Encode(ds);
    forall i | 0 <= i < |rs| ensures ContactData.FromDict(rs[i]) == Success(ds[i]) {
      FromDictToDict(ds[i]);
    }
    var r := DecodeAll(rs);
    assert r.Success?;
    assert r.value == ds;
  }

  /** The phones of a list of records, in order. */
  function Phones(ds: seq<ContactData>): (ps: seq<string>)
    ensures |ps| == |ds| && forall i | 0 <= i < |ds| :: ps[i] == ds[i].phone
  {
    seq(|ds|, i requires 0 <= i < |ds| => ds[i].phone)
  }

  // ----- keyword updates: Contact.update(**kwargs) -----

  /**
   * `kwargs.get(key)`: None exactly when no keyword is `key`; otherwise the
   * value of the last keyword named `key` (`LookupLast`).
   */
  function Lookup(kwargs: seq<(string, string)>, key: string): (r: Option<string>)
    ensures r.None? <==> forall i | 0 <= i < |kwargs| :: kwargs[i].0 != key
  {
    if kwargs == [] then None
    else if kwargs[|kwargs| - 1].0 == key then Some(kwargs[|kwargs| - 1].1)
    else
      assert forall i | 0 <= i < |kwargs| - 1 :: kwargs[..|kwargs| - 1][i] == kwargs[i];
      Lookup(kwargs[..|kwargs| - 1], key)
  }

  /** A value found is that of the last keyword named `key`. */
  lemma {:induction false} LookupLast(kwargs: seq<(string, string)>, key: string)
    ensures Lookup(kwargs, key).Some? ==> exists i | 0 <= i < |kwargs| ::
      kwargs[i] == (key, Lookup(kwargs, key).value) && forall j | i < j < |kwargs| :: kwargs[j].0 != key
  {
    if kwargs != [] && kwargs[|kwargs| - 1].0 != key {
      var init := kwargs[..|kwargs| - 1];
      LookupLast(init, key);
      if Lookup(init, key).Some? {
        var i :| 0 <= i < |init| && init[i] == (key, Lookup(init, key).value)
          && forall j | i < j < |init| :: init[j].0 != key;
        assert kwargs[i] == init[i];
        forall j | i < j < |kwargs| ensures kwargs[j].0 != key {
          if j < |init| { assert kwargs[j] == init[j]; }
        }
      }
    }
  }

  /** The value an attribute ends up with: the keyword's if given, else the current one. */
  function Override(kwargs: seq<(string, string)>, key: string, current: string): string {
    Lookup(kwargs, key).GetOr(current)
  }

  /** `if hasattr(self, key): setattr(self, key, value)`, over the seven attributes. */
  function SetAttribute(d: ContactData, key: string, value: string): ContactData {
    if key == "name" then d.(name := value)
    else if key == "phone" then d.(phone := value)
    else if key == "email" then d.(email := value)
    else if key == "address" then d.(address := value)
    else if key == "notes" then d.(notes := value)
    else if key == "created_date" then d.(createdDate := value)
    else if key == "last_modified" then d.(lastModified := value)
    else d
  }

  /**
   * Setting an attribute changes the record's dictionary at `key` alone, and
   * a key naming no attribute changes nothing.
   */
  lemma SetAttributeDict(d: ContactData, key: string, value: string)
    ensures key in RecordKeys ==> SetAttribute(d, key, value).ToDict() == d.ToDict()[key := value]
    ensures key !in RecordKeys ==> SetAttribute(d, key, value) == d
  {
  }

  /**
   * The loop `for key, value in kwargs.items(): ...` of `update`; keywords
   * none of which names an attribute leave the record as it was.
   */
  function ApplyKwargs(d: ContactData, kwargs: seq<(string, string)>): (r: ContactData)
    ensures (forall i | 0 <= i < |kwargs| :: kwargs[i].0 !in RecordKeys) ==> r == d
  {
    if kwargs == [] then d
    else
      var (key, value) := kwargs[|kwargs| - 1];
      assert forall i | 0 <= i < |kwargs| - 1 :: kwargs[..|kwargs| - 1][i] == kwargs[i];
      SetAttribute(ApplyKwargs(d, kwargs[..|kwargs| - 1]), key, value)
  }

  /**
   * `update` as a whole: each attribute takes its keyword's last value or
   * keeps its own, and then `last_modified` is now, whatever the keywords said.
   */
  function AfterUpdate(d: ContactData, kwargs: seq<(string, string)>, now: string): (r: ContactData)
    ensures r == ContactData(
      Override(kwargs, "name", d.name), Override(kwargs, "phone", d.phone),
      Override(kwargs, "email", d.email), Override(kwargs, "address", d.address),
      Override(kwargs, "notes", d.notes), Override(kwargs, "created_date", d.createdDate), now)
  {
    ApplyKwargsFields(d, kwargs);
    ApplyKwargs(d, kwargs).(lastModified := now)
  }

  /**
   * Every attribute named by a keyword takes the (last) value given for it,
   * with no stripping or emptiness check; every other attribute keeps its
   * value; keywords naming no attribute are ignored.
   */
  lemma {:induction false} ApplyKwargsFields(d: ContactData, kwargs: seq<(string, string)>)
    ensures ApplyKwargs(d, kwargs) == ContactData(
      Override(kwargs, "name", d.name), Override(kwargs, "phone", d.phone),
      Override(kwargs, "email", d.email), Override(kwargs, "address", d.address),
      Override(kwargs, "notes", d.notes), Override(kwargs, "created_date", d.createdDate),
      Override(kwargs, "last_modified", d.lastModified))
  {
    if kwargs != [] {
      var init, last := kwargs[..|kwargs| - 1], kwargs[|kwargs| - 1];
      ApplyKwargsFields(d, init);
      assert ApplyKwargs(d, kwargs) == SetAttribute(ApplyKwargs(d, init), last.0, last.1);
      forall k ensures Lookup(kwargs, k) == (if last.0 == k then Some(last.1) else Lookup(init, k)) {
      }
    }
  }

  /** A phone set beforehand to the value the keywords give is overwritten with the same value. */
  lemma ApplyKwargsPhoneSetFirst(d: ContactData, kwargs: seq<(string, string)>, p: string)
    requires Lookup(kwargs, "phone") == Some(p)
    ensures ApplyKwargs(d.(phone := p), kwargs) == ApplyKwargs(d, kwargs)
  {
    ApplyKwargsFields(d, kwargs);
    ApplyKwargsFields(d.(phone := p), kwargs);
  }

  // ----- validation -----

  /**
   * The checks of `add_contact`, in order: stripped name and phone both
   * non-empty, then the phone AS GIVEN (not stripped) absent from the stored
   * phones.
   */
  function AddRejection(phones: seq<string>, name: string, phone: string): (r: Option<StoreError>)
    ensures r == Some(MissingRequired) <==> AllSpace(name) || AllSpace(phone)
    ensures r == Some(DuplicatePhone) <==> !AllSpace(name) && !AllSpace(phone) && phone in phones
    ensures r.None? <==> !AllSpace(name) && !AllSpace(phone) && phone !in phones
  {
    TrimEmptyIffAllSpace(name);
    TrimEmptyIffAllSpace(phone);
    if Trim(name) == "" || Trim(phone) == "" then Some(MissingRequired)
    else if phone in phones then Some(DuplicatePhone)
    else None
  }

  /**
   * The duplicate check compares the unstripped argument with stored phones,
   * which were stripped when added: " 111" is accepted next to "111", and is
   * stored as "111".
   */
  lemma UnstrippedDuplicateAccepted()
    ensures AddRejection(["111"], "Ann", " 111") == None
    ensures Trim(" 111") == "111"
  {
    assert TrimStart(" 111") == TrimStart("111");
    assert !(" 111" in ["111"]);
  }

  /**
   * Whether `update_contact` refuses a phone change: the new phone is
   * non-empty, differs from the target's phone, and is already stored.
   */
  function PhoneChangeClash(phones: seq<string>, current: string, kwargs: seq<(string, string)>): (b: bool)
    ensures b ==> exists i, j | 0 <= i < |kwargs| && 0 <= j < |phones| ::
      kwargs[i] == ("phone", phones[j]) && phones[j] != current && phones[j] != ""
    ensures (forall i | 0 <= i < |kwargs| :: kwargs[i].0 != "phone") ==> !b
  {
    var p := Lookup(kwargs, "phone");
    LookupLast(kwargs, "phone");
    p.Some? && p.value != "" && p.value != current && p.value in phones
  }

  /**
   * Python binds `update_contact(self, phone, **kwargs)`: a keyword named
   * like a declared parameter raises TypeError before the body runs.
   * The first such keyword, if any.
   */
  function RepeatedKeyword(kwargs: seq<(string, string)>): (r: Option<string>)
    ensures r.None? <==> forall i | 0 <= i < |kwargs| :: kwargs[i].0 != "self" && kwargs[i].0 != "phone"
    ensures r.Some? ==> r.value == "self" || r.value == "phone"
  {
    if kwargs == [] then None
    else if kwargs[0].0 == "self" || kwargs[0].0 == "phone" then Some(kwargs[0].0)
    else
      assert forall i | 1 <= i < |kwargs| :: kwargs[i] == kwargs[1..][i - 1];
      RepeatedKeyword(kwargs[1..])
  }

  /** `update_contact("111", phone="222")` never reaches the body: `phone` is bound twice. */
  lemma PhoneKeywordRefused()
    ensures RepeatedKeyword([("phone", "222")]) == Some("phone")
    ensures RepeatedKeyword([("name", "Ann"), ("email", "a@b.c")]).None?
  {
  }

  // ----- search, listing, statistics -----

  /**
   * The test of `search_contacts` on one record, `q` already lowered:
   * in the lowered name, in the phone as stored, or in a non-empty lowered email.
   */
  function Matches(d: ContactData, q: string): (b: bool)
    ensures q == "" ==> b
    ensures b ==> |q| <= |d.name| || |q| <= |d.phone| || |q| <= |d.email|
  {
    ContainsEmpty(Lower(d.name));
    || Contains(Lower(d.name), q)
    || Contains(d.phone, q)
    || (d.email != "" && Contains(Lower(d.email), q))
  }

  /** `len([v for v in values if v])`. */
  function CountNonEmpty(values: seq<string>): (n: nat)
    ensures n <= |values|
  {
    if values == [] then 0
    else CountNonEmpty(values[..|values| - 1]) + (if values[|values| - 1] != "" then 1 else 0)
  }

  /** The count is the number of positions holding a non-empty string. */
  lemma {:induction false} CountNonEmptyIsCardinality(values: seq<string>)
    ensures CountNonEmpty(values) == |set i | 0 <= i < |values| && values[i] != ""|
  {
    if values != [] {
      var n := |values| - 1;
      var init := values[..n];
      CountNonEmptyIsCardinality(init);
      var before := set i | 0 <= i < n && init[i] != "";
      var after := set i | 0 <= i < |values| && values[i] != "";
      if values[n] != "" {
        assert after == before + {n};
      } else {
        assert after == before;
      }
    }
  }

  function Emails(ds: seq<ContactData>): (es: seq<string>)
    ensures |es| == |ds| && forall i | 0 <= i < |ds| :: es[i] == ds[i].email
  {
    seq(|ds|, i requires 0 <= i < |ds| => ds[i].email)
  }

  function Addresses(ds: seq<ContactData>): (addrs: seq<string>)
    ensures |addrs| == |ds| && forall i | 0 <= i < |ds| :: addrs[i] == ds[i].address
  {
    seq(|ds|, i requires 0 <= i < |ds| => ds[i].address)
  }

  datatype Statistics = Statistics(totalContacts: nat, contactsWithEmail: nat, contactsWithAddress: nat)

  /** The records of a list of contact objects, in order. */
  function Snapshot(cs: seq<Contact>): (ds: seq<ContactData>)
    reads cs
    ensures |ds| == |cs| && forall i | 0 <= i < |cs| :: ds[i] == cs[i].Data()
  {
    seq(|cs|, i requires 0 <= i < |cs| reads cs => cs[i].Data())
  }

  /** Appending a contact appends its record to the snapshot. */
  lemma SnapshotAppend(cs: seq<Contact>, c: Contact)
    ensures Snapshot(cs + [c]) == Snapshot(cs) + [c.Data()]
  {
  }

  /** A record whose phone is not yet stored keeps the phones pairwise distinct. */
  lemma PhonesAppendDistinct(ds: seq<ContactData>, d: ContactData)
    requires Distinct(Phones(ds)) && d.phone !in Phones(ds)
    ensures Distinct(Phones(ds + [d]))
  {
    var ps := Phones(ds + [d]);
    forall i, j | 0 <= i < j < |ps| ensures ps[i] != ps[j] {
      if j == |ds| {
        assert ps[i] == Phones(ds)[i];
      } else {
        assert ps[i] == Phones(ds)[i] && ps[j] == Phones(ds)[j];
      }
    }
  }

  /** Replacing a record by one with the same phone keeps the phones. */
  lemma PhonesKeep(ds: seq<ContactData>, k: nat, d: ContactData)
    requires k < |ds| && d.phone == ds[k].phone
    ensures Phones(ds[k := d]) == Phones(ds)
  {
  }

  /** Removing a contact from the list removes its record from the snapshot. */
  lemma SnapshotRemove(cs: seq<Contact>, i: nat)
    requires i < |cs|
    ensures Snapshot(cs[..i] + cs[i + 1..]) == Snapshot(cs)[..i] + Snapshot(cs)[i + 1..]
  {
  }

  /** Changing only the contact at position k changes only the record at k. */
  lemma SnapshotChangeOne(cs: seq<Contact>, k: nat, before: seq<ContactData>)
    requires k < |cs| == |before|
    requires forall i | 0 <= i < |cs| && i != k :: cs[i].Data() == before[i]
    ensures Snapshot(cs) == before[k := cs[k].Data()]
  {
  }

  /** The contacts that `search_contacts` keeps, in list order (`q` already lowered). */
  function Matching(cs: seq<Contact>, q: string): (r: seq<Contact>)
    reads cs
    ensures |r| <= |cs| && forall i | 0 <= i < |r| :: r[i] in cs
  {
    if cs == [] then []
    else
      var last := cs[|cs| - 1];
      Matching(cs[..|cs| - 1], q) + (if Matches(last.Data(), q) then [last] else [])
  }

  /** A contact is found exactly when it is stored and matches. */
  lemma {:induction false} MatchingMembers(cs: seq<Contact>, q: string, c: Contact)
    ensures c in Matching(cs, q) <==> c in cs && Matches(c.Data(), q)
  {
    if cs != [] {
      var init := cs[..|cs| - 1];
      assert cs == init + [cs[|cs| - 1]];
      MatchingMembers(init, q, c);
    }
  }

  /** The results keep the order of the list. */
  lemma {:induction false} MatchingEmbeds(cs: seq<Contact>, q: string) returns (idx: seq<nat>)
    ensures Embeds(idx, Matching(cs, q), cs)
  {
    if cs == [] {
      idx := [];
    } else {
      var init, last := cs[..|cs| - 1], cs[|cs| - 1];
      var idx0 := MatchingEmbeds(init, q);
      assert cs == init + [last];
      EmbedsSnoc(idx0, Matching(init, q), init, last, Matches(last.Data(), q));
      idx := if Matches(last.Data(), q) then idx0 + [|init|] else idx0;
    }
  }

  lemma MatchingInOrder(cs: seq<Contact>, q: string)
    ensures IsSubsequence(Matching(cs, q), cs)
  {
    var idx := MatchingEmbeds(cs, q);
  }

  /** An empty query (lowered, still empty) keeps every contact. */
  lemma {:induction false} MatchingEmptyQuery(cs: seq<Contact>)
    ensures Matching(cs, Lower("")) == cs
  {
    if cs != [] {
      MatchingEmptyQuery(cs[..|cs| - 1]);
      ContainsEmpty(Lower(cs[|cs| - 1].name));
      assert cs == cs[..|cs| - 1] + [cs[|cs| - 1]];
    }
  }

  /** `(x.name.lower(), x)` for each contact: the decoration `sorted(key=...)` uses. */
  function KeyedByName(cs: seq<Contact>): (p: seq<(string, Contact)>)
    reads cs
    ensures |p| == |cs| && forall i | 0 <= i < |cs| :: p[i] == (Lower(cs[i].name), cs[i])
  {
    seq(|cs|, i requires 0 <= i < |cs| reads cs => (Lower(cs[i].name), cs[i]))
  }

  /** The contacts whose lowered name is `k`, in list order. */
  function NamedAs(cs: seq<Contact>, k: string): seq<Contact>
    reads cs
  {
    if cs == [] then []
    else (if Lower(cs[0].name) == k then [cs[0]] else []) + NamedAs(cs[1..], k)
  }

  /** Every pair carries its contact's lowered name as key. */
  ghost predicate KeysAreNames(p: seq<(string, Contact)>)
    reads Values(p)
  {
    forall i | 0 <= i < |p| :: p[i].0 == Lower(p[i].1.name)
  }

  lemma {:induction false} NamedAsValues(p: seq<(string, Contact)>, k: string)
    requires KeysAreNames(p)
    ensures NamedAs(Values(p), k) == Values(WithKey(p, k))
  {
    if p != [] {
      assert Values(p)[1..] == Values(p[1..]);
      assert KeysAreNames(p[1..]) by {
        forall i | 0 <= i < |p[1..]| ensures p[1..][i].0 == Lower(p[1..][i].1.name) {
          assert p[1..][i] == p[i + 1];
        }
      }
      NamedAsValues(p[1..], k);
      var head := if p[0].0 == k then [p[0]] else [];
      assert Values(head + WithKey(p[1..], k)) == Values(head) + Values(WithKey(p[1..], k));
    }
  }

  /** `sorted(contacts, key=lambda x: x.name.lower())`. */
  function SortedByName(cs: seq<Contact>): (r: seq<Contact>)
    reads cs
    ensures multiset(r) == multiset(cs)
  {
    SortByKeyPermutes(KeyedByName(cs));
    assert Values(KeyedByName(cs)) == cs;
    Values(SortByKey(KeyedByName(cs)))
  }

  /**
   * The sorted listing is a rearrangement of the contacts, in non-decreasing
   * order of lowered name, and contacts with the same lowered name keep
   * their relative order.
   */
  lemma SortedByNameSpec(cs: seq<Contact>)
    ensures multiset(SortedByName(cs)) == multiset(cs)
    ensures forall i, j | 0 <= i < j < |SortedByName(cs)| ::
      LessEq(Lower(SortedByName(cs)[i].name), Lower(SortedByName(cs)[j].name))
    ensures forall k :: NamedAs(SortedByName(cs), k) == NamedAs(cs, k)
  {
    var keyed := KeyedByName(cs);
    var sorted := SortByKey(keyed);
    assert Values(keyed) == cs;
    SortByKeyPermutes(keyed);
    SortByKeySorted(keyed);
    assert KeysAreNames(keyed);
    assert KeysAreNames(sorted) by {
      forall i | 0 <= i < |sorted| ensures sorted[i].0 == Lower(sorted[i].1.name) {
        assert sorted[i] in multiset(keyed);
      }
    }
    forall k ensures NamedAs(SortedByName(cs), k) == NamedAs(cs, k) {
      SortByKeyStable(keyed, k);
      NamedAsValues(sorted, k);
      NamedAsValues(keyed, k);
    }
  }

  // ----- the record -----

  /** A contact record; `update` changes its attributes in place. */
  class Contact {
    var name: string
    var phone: string
    var email: string
    var address: string
    var notes: string
    var createdDate: string
    var lastModified: string

    function Data(): ContactData
      reads this
    {
      ContactData(name, phone, email, address, notes, createdDate, lastModified)
    }

    /** `Contact(name, phone, email, address, notes)`: both timestamps set to now. */
    constructor (name: string, phone: string, email: string, address: string, notes: string, now: string)
      ensures Data() == ContactData(name, phone, email, address, notes, now, now)
    {
      this.name, this.phone, this.email, this.address, this.notes := name, phone, email, address, notes;
      this.createdDate, this.lastModified := now, now;
    }

    /** `to_dict`. */
    function ToDict(): (m: map<string, string>)
      reads this
      ensures m.Keys == RecordKeys
      ensures ContactData.FromDict(m) == Success(Data())
    {
      FromDictToDict(Data());
      Data().ToDict()
    }

    /** `Contact.from_dict(data)`: a new contact, or the KeyError of `from_dict`. */
    static method FromDict(m: map<string, string>) returns (r: Result<Contact, StoreError>)
      ensures ContactData.FromDict(m).Failure? ==> r == Failure(ContactData.FromDict(m).error)
      ensures ContactData.FromDict(m).Success? ==>
        r.Success? && fresh(r.value) && r.value.Data() == ContactData.FromDict(m).value
    {
      match ContactData.FromDict(m)
      case Failure(e) =>
        r := Failure(e);
      case Success(d) =>
        var c := new Contact(d.name, d.phone, d.email, d.address, d.notes, d.createdDate);
        c.lastModified := d.lastModified;
        r := Success(c);
    }

    /** `update(**kwargs)`: set each named attribute, then refresh `last_modified`. */
    method Update(kwargs: seq<(string, string)>, now: string)
      modifies this
      ensures Data() == AfterUpdate(old(Data()), kwargs, now)
    {
      var i := 0;
      while i < |kwargs|
        invariant 0 <= i <= |kwargs|
        invariant Data() == ApplyKwargs(old(Data()), kwargs[..i])
      {
        var (key, value) := kwargs[i];
        assert kwargs[..i + 1][..i] == kwargs[..i];
        if key == "name" {
          name := value;
        } else if key == "phone" {
          phone := value;
        } else if key == "email" {
          email := value;
        } else if key == "address" {
          address := value;
        } else if key == "notes" {
          notes := value;
        } else if key == "created_date" {
          createdDate := value;
        } else if key == "last_modified" {
          lastModified := value;
        }
        i := i + 1;
      }
      assert kwargs[..i] == kwargs;
      lastModified := now;
    }
  }

  /**
   * `[Contact.from_dict(d) for d in data]` on objects: one new contact per
   * record, in order, or the KeyError of the first record that lacks a key.
   */
  method LoadRecords(rs: seq<map<string, string>>) returns (r: Result<seq<Contact>, StoreError>)
    ensures DecodeAll(rs).Failure? ==> r == Failure(DecodeAll(rs).error)
    ensures DecodeAll(rs).Success? ==>
      && r.Success? && Snapshot(r.value) == DecodeAll(rs).value && Distinct(r.value)
      && forall c | c in r.value :: fresh(c)
  {
    var loaded: seq<Contact> := [];
    var i := 0;
    while i < |rs|
      invariant 0 <= i <= |rs| && |loaded| == i && Distinct(loaded)
      invariant forall c | c in loaded :: fresh(c)
      invariant forall j | 0 <= j < i :: ContactData.FromDict(rs[j]) == Success(loaded[j].Data())
    {
      var c := Contact.FromDict(rs[i]);
      if c.Failure? {
        DecodeAllFirstFailure(rs, i);
        return Failure(c.error);
      }
      loaded := loaded + [c.value];
      i := i + 1;
    }
    assert Snapshot(loaded) == DecodeAll(rs).value;
    r := Success(loaded);
  }

  /** What `update_contact` answers: None, the updated contact, or an error. */
  datatype UpdateOutcome = NotFound | Updated(contact: Contact) | Rejected(error: StoreError)

  // ----- the store -----

  /** The contact book: an ordered list of contacts mirrored to a file. */
  class ContactBook {
    const filename: string
    var contacts: seq<Contact>
    /** The backing file's contents. */
    var disk: Stored

    /** Every contact object occurs once: each was created by add or load. */
    ghost predicate Valid()
      reads this
    {
      Distinct(contacts)
    }

    function Records(): seq<ContactData>
      reads this, contacts
    {
      Snapshot(contacts)
    }

    function StoredPhones(): seq<string>
      reads this, contacts
    {
      Phones(Records())
    }

    /** The file holds exactly the current records, in list order. */
    predicate Saved()
      reads this, contacts
    {
      disk == Json(Encode(Records()))
    }

    /** `self.filename = filename; self.contacts = []`, before loading. */
    constructor (filename: string, disk: Stored)
      ensures this.filename == filename && this.disk == disk && contacts == [] && Valid()
    {
      this.filename := filename;
      this.disk := disk;
      contacts := [];
    }

    /**
     * `load_contacts`: a missing file leaves the list alone, an unparsable one
     * empties it, and a JSON list replaces it by new contacts, unless a record
     * lacks `name` or `phone`, whose KeyError leaves the list alone.
     */
    method LoadContacts() returns (r: Result<(), StoreError>)
      requires Valid()
      modifies this`contacts
      ensures Valid()
      ensures disk.Missing? ==> r.Success? && contacts == old(contacts)
      ensures disk.Unparsable? ==> r.Success? && contacts == []
      ensures disk.Json? && DecodeAll(disk.records).Failure? ==>
        r == Failure(DecodeAll(disk.records).error) && contacts == old(contacts)
      ensures disk.Json? && DecodeAll(disk.records).Success? ==>
        r.Success? && Records() == DecodeAll(disk.records).value
        && forall c | c in contacts :: fresh(c)
    {
      match disk
      case Missing =>
        r := Success(());
      case Unparsable =>
        contacts := [];
        r := Success(());
      case Json(rs) =>
        var loaded := LoadRecords(rs);
        if loaded.Failure? {
          return Failure(loaded.error);
        }
        contacts := loaded.value;
        r := Success(());
    }

    /** `ContactBook(filename)`: construct, then load; a KeyError aborts construction. */
    static method Open(filename: string, disk: Stored) returns (r: Result<ContactBook, StoreError>)
      ensures Loaded(disk).Failure? ==> r == Failure(Loaded(disk).error)
      ensures Loaded(disk).Success? ==>
        && r.Success? && fresh(r.value) && r.value.Valid()
        && r.value.filename == filename && r.value.disk == disk
        && r.value.Records() == Loaded(disk).value
    {
      var book := new ContactBook(filename, disk);
      var loaded := book.LoadContacts();
      if loaded.Failure? {
        return Failure(loaded.error);
      }
      return Success(book);
    }

    /** `save_contacts`: rewrite the file with every record, in list order. */
    method SaveContacts()
      modifies this`disk
      ensures Saved()
    {
      disk := Json(Encode(Records()));
    }

    /**
     * `add_contact`: refuse a blank name or phone, then a phone equal to a
     * stored one; otherwise append a new contact with all five fields
     * stripped, stamped now, and save.
     */
    method AddContact(name: string, phone: string, email: string, address: string, notes: string, now: string)
      returns (r: Result<Contact, StoreError>)
      requires Valid()
      modifies this`contacts, this`disk
      ensures Valid()
      ensures AddRejection(old(StoredPhones()), name, phone).Some? ==>
        r == Failure(AddRejection(old(StoredPhones()), name, phone).value)
        && contacts == old(contacts) && disk == old(disk)
      ensures AddRejection(old(StoredPhones()), name, phone).None? ==>
        && r.Success? && fresh(r.value) && contacts == old(contacts) + [r.value]
        && r.value.Data() == ContactData(Trim(name), Trim(phone), Trim(email), Trim(address), Trim(notes), now, now)
        && Records() == old(Records()) + [r.value.Data()]
        && Saved()
      ensures r.Success? && Trim(phone) == phone && Distinct(old(StoredPhones())) ==> Distinct(StoredPhones())
    {
      if Trim(name) == "" || Trim(phone) == "" {
        return Failure(MissingRequired);
      }
      if phone in StoredPhones() {
        return Failure(DuplicatePhone);
      }
      var c := new Contact(Trim(name), Trim(phone), Trim(email), Trim(address), Trim(notes), now);
      Append(c);
      r := Success(c);
    }

    /** `self.contacts.append(contact); self.save_contacts()` for a contact not yet stored. */
    method Append(c: Contact)
      requires Valid() && c !in contacts
      modifies this`contacts, this`disk
      ensures Valid()
      ensures contacts == old(contacts) + [c]
      ensures Records() == old(Records()) + [c.Data()]
      ensures c.phone !in old(StoredPhones()) && Distinct(old(StoredPhones())) ==> Distinct(StoredPhones())
      ensures Saved()
    {
      ghost var before := Records();
      assert StoredPhones() == Phones(before);
      SnapshotAppend(contacts, c);
      contacts := contacts + [c];
      assert Records() == before + [c.Data()];
      if c.phone !in Phones(before) && Distinct(Phones(before)) {
        PhonesAppendDistinct(before, c.Data());
      }
      SaveContacts();
    }

    /**
     * `get_contact_by_phone`: the first contact whose stripped phone equals
     * the stripped argument, or None; nothing changes.
     */
    method GetContactByPhone(phone: string) returns (r: Option<Contact>)
      ensures r.None? <==> FindTrimmed(StoredPhones(), phone).None?
      ensures r.Some? ==> r.value == contacts[FindTrimmed(StoredPhones(), phone).value]
    {
      var key := Trim(phone);
      var i := 0;
      while i < |contacts|
        invariant 0 <= i <= |contacts|
        invariant forall j | 0 <= j < i :: Trim(StoredPhones()[j]) != key
      {
        if Trim(contacts[i].phone) == key {
          return Some(contacts[i]);
        }
        i := i + 1;
      }
      return None;
    }

    /** `search_contacts`: the contacts matching the lowered query, in list order. */
    method SearchContacts(query: string) returns (results: seq<Contact>)
      ensures results == Matching(contacts, Lower(query))
    {
      var q := Lower(query);
      results := [];
      var i := 0;
      while i < |contacts|
        invariant 0 <= i <= |contacts|
        invariant results == Matching(contacts[..i], q)
      {
        var c := contacts[i];
        assert contacts[..i + 1][..i] == contacts[..i];
        if Matches(c.Data(), q) {
          results := results + [c];
        }
        i := i + 1;
      }
      assert contacts[..i] == contacts;
    }

    /**
     * `update_contact`, with the contact looked up by `phone` and any new
     * phone taken from the keywords: not found changes nothing; a clashing
     * new phone is refused and changes nothing; otherwise only the target's
     * attributes change, as `update` sets them, and the file is rewritten.
     */
    method UpdateContact(phone: string, kwargs: seq<(string, string)>, now: string) returns (r: UpdateOutcome)
      requires Valid()
      modifies this`disk, contacts
      ensures Valid() && contacts == old(contacts)
      ensures old(FindTrimmed(StoredPhones(), phone)).None? ==>
        r == NotFound && Records() == old(Records()) && disk == old(disk)
      ensures old(FindTrimmed(StoredPhones(), phone)).Some? ==>
        var k := old(FindTrimmed(StoredPhones(), phone)).value;
        if old(PhoneChangeClash(StoredPhones(), Records()[k].phone, kwargs)) then
          r == Rejected(DuplicatePhone) && Records() == old(Records()) && disk == old(disk)
        else
          && r == Updated(contacts[k])
          && Records() == old(Records())[k := AfterUpdate(old(Records())[k], kwargs, now)]
          && Saved()
    {
      ghost var recs := Records();
      var found := GetContactByPhone(phone);
      assert Records() == recs;
      if found.None? {
        return NotFound;
      }
      var c := found.value;
      ghost var k := FindTrimmed(Phones(recs), phone).value;
      var newPhone := Lookup(kwargs, "phone");
      if newPhone.Some? && newPhone.value != "" && newPhone.value != c.phone {
        if newPhone.value in StoredPhones() {
          return Rejected(DuplicatePhone);
        }
      }
      UpdateAt(c, k, kwargs, now);
      r := Updated(c);
    }

    /** The body of `update_contact` past its checks, on the contact at position k. */
    method UpdateAt(c: Contact, ghost k: nat, kwargs: seq<(string, string)>, now: string)
      requires Valid() && k < |contacts| && contacts[k] == c
      modifies this`disk, contacts
      ensures contacts == old(contacts)
      ensures Records() == old(Records())[k := AfterUpdate(old(Records())[k], kwargs, now)]
      ensures Saved()
    {
      ghost var before := Records();
      ghost var target := AfterUpdate(before[k], kwargs, now);
      var newPhone := Lookup(kwargs, "phone");
      if newPhone.Some? && newPhone.value != "" && newPhone.value != c.phone {
        c.phone := newPhone.value;
        ApplyKwargsPhoneSetFirst(before[k], kwargs, newPhone.value);
      }
      c.Update(kwargs, now);
      forall i | 0 <= i < |contacts| && i != k ensures contacts[i].Data() == before[i] {
        assert contacts[i] != c;
      }
      SnapshotChangeOne(contacts, k, before);
      SaveContacts();
    }

    /**
     * `update_contact(phone, **kwargs)` as Python calls it: a keyword `phone`
     * (or `self`) is a TypeError, so the body never receives a new phone.
     * Every other call either finds nothing and changes nothing, or updates
     * the contact found as `update` does and saves.
     */
    method UpdateContactAsCalled(phone: string, kwargs: seq<(string, string)>, now: string) returns (r: UpdateOutcome)
      requires Valid()
      modifies this`disk, contacts
      ensures Valid() && contacts == old(contacts)
      ensures RepeatedKeyword(kwargs).Some? ==>
        r == Rejected(RepeatedArgument(RepeatedKeyword(kwargs).value))
        && Records() == old(Records()) && disk == old(disk)
      ensures RepeatedKeyword(kwargs).None? && old(FindTrimmed(StoredPhones(), phone)).None? ==>
        r == NotFound && Records() == old(Records()) && disk == old(disk)
      ensures RepeatedKeyword(kwargs).None? && old(FindTrimmed(StoredPhones(), phone)).Some? ==>
        var k := old(FindTrimmed(StoredPhones(), phone)).value;
        && r == Updated(contacts[k])
        && Records() == old(Records())[k := AfterUpdate(old(Records())[k], kwargs, now)]
        && Saved()
      ensures r != Rejected(DuplicatePhone)
      ensures StoredPhones() == old(StoredPhones())
    {
      var repeated := RepeatedKeyword(kwargs);
      if repeated.Some? {
        return Rejected(RepeatedArgument(repeated.value));
      }
      ghost var before := Records();
      ghost var found := FindTrimmed(Phones(before), phone);
      r := UpdateContact(phone, kwargs, now);
      if found.Some? {
        ghost var k := found.value;
        assert !PhoneChangeClash(Phones(before), before[k].phone, kwargs);
        PhonesKeep(before, k, AfterUpdate(before[k], kwargs, now));
      }
    }

    /** `delete_contact`: remove the contact `get_contact_by_phone` finds, and save. */
    method DeleteContact(phone: string) returns (deleted: bool)
      requires Valid()
      modifies this`contacts, this`disk
      ensures Valid()
      ensures deleted <==> old(FindTrimmed(StoredPhones(), phone)).Some?
      ensures deleted ==>
        var k := old(FindTrimmed(StoredPhones(), phone)).value;
        && contacts == old(contacts)[..k] + old(contacts)[k + 1..]
        && Records() == old(Records())[..k] + old(Records())[k + 1..]
        && Saved()
      ensures !deleted ==> contacts == old(contacts) && disk == old(disk)
    {
      ghost var recs := Records();
      ghost var phones := Phones(recs);
      var found := GetContactByPhone(phone);
      assert Records() == recs;
      if found.None? {
        return false;
      }
      ghost var k := FindTrimmed(phones, phone).value;
      RemoveAt(found.value, k);
      deleted := true;
    }

    /** `self.contacts.remove(contact); self.save_contacts()` for the contact at position k. */
    method RemoveAt(c: Contact, ghost k: nat)
      requires Valid() && k < |contacts| && contacts[k] == c
      modifies this`contacts, this`disk
      ensures Valid()
      ensures contacts == old(contacts)[..k] + old(contacts)[k + 1..]
      ensures Records() == old(Records())[..k] + old(Records())[k + 1..]
      ensures Saved()
    {
      ghost var before := Records();
      IndexOfDistinct(contacts, k);
      var i := IndexOf(contacts, c);
      DistinctRemove(contacts, i);
      SnapshotRemove(contacts, i);
      contacts := contacts[..i] + contacts[i + 1..];
      SaveContacts();
    }

    /** `get_all_contacts`: sorted by lowered name, stably; the list itself is not reordered. */
    function GetAllContacts(): (r: seq<Contact>)
      reads this, contacts
      ensures multiset(r) == multiset(contacts)
      ensures forall i, j | 0 <= i < j < |r| :: LessEq(Lower(r[i].name), Lower(r[j].name))
      ensures forall k :: NamedAs(r, k) == NamedAs(contacts, k)
    {
      SortedByNameSpec(contacts);
      SortedByName(contacts)
    }

    /** `get_statistics`. */
    function GetStatistics(): (s: Statistics)
      reads this, contacts
      ensures s.totalContacts == |contacts|
      ensures s.contactsWithEmail <= s.totalContacts && s.contactsWithAddress <= s.totalContacts
      ensures s.contactsWithEmail == |set i | 0 <= i < |contacts| && contacts[i].email != ""|
      ensures s.contactsWithAddress == |set i | 0 <= i < |contacts| && contacts[i].address != ""|
    {
      var es, addrs := Emails(Records()), Addresses(Records());
      CountNonEmptyIsCardinality(es);
      CountNonEmptyIsCardinality(addrs);
      assert (set i | 0 <= i < |es| && es[i] != "") == (set i | 0 <= i < |contacts| && contacts[i].email != "");
      assert (set i | 0 <= i < |addrs| && addrs[i] != "") == (set i | 0 <= i < |contacts| && contacts[i].address != "");
      Statistics(|contacts|, CountNonEmpty(Emails(Records())), CountNonEmpty(Addresses(Records())))
    }
  }
}
