/** The two person classes of utils.py: every string they are given is
    cleaned on the way in, and `gender` is spelled out. */
module People {
  import opened Chars
  import opened Options
  import opened Sanitize
  import opened Names
  import opened Contacts

  /** The keyword arguments once the constructor's loop has run: each value
      cleaned, then stored through `__setattr__`. */
  function CleanedAttributes(kwargs: map<string, string>): (m: map<string, string>)
    ensures m.Keys == kwargs.Keys
  {
    map k | k in kwargs :: Stored(k, CleanString(kwargs[k]))
  }

  /** Two maps with the same keys and the same value at each key are equal. */
  lemma SameMap(a: map<string, string>, b: map<string, string>)
    requires a.Keys == b.Keys
    requires forall k :: k in a ==> a[k] == b[k]
    ensures a == b
  {
  }

  /** Every type in `ds` is lower-case. */
  predicate LowerTypes(ds: seq<ContactDetail>) {
    forall i :: 0 <= i < |ds| ==> NoUpper(ds[i].kind)
  }

  /** Appending an entry with a lower-case type keeps every type lower-case. */
  lemma LowerTypesAppend(ds: seq<ContactDetail>, d: ContactDetail)
    requires LowerTypes(ds) && NoUpper(d.kind)
    ensures LowerTypes(ds + [d])
  {
  }

  /** The gender a person holds is never the one-letter form. */
  predicate GenderSpelledOut(attributes: map<string, string>) {
    "gender" in attributes ==> attributes["gender"] != "M" && attributes["gender"] != "F"
  }

  /** What the constructors store: a gender of `M` or `F` becomes `male` or
      `female`, every other attribute is the cleaned keyword value, and no
      stored gender is a single letter. */
  lemma CleanedAttributesStored(kwargs: map<string, string>, k: string)
    requires k in kwargs
    ensures var m := CleanedAttributes(kwargs);
            && GenderSpelledOut(m)
            && (k != "gender" ==> m[k] == CleanString(kwargs[k]) && IsClean(m[k]))
            && (k == "gender" && CleanString(kwargs[k]) == "M" ==> m[k] == "male")
            && (k == "gender" && CleanString(kwargs[k]) == "F" ==> m[k] == "female")
  {
    CleanStringIsClean(kwargs[k]);
    if "gender" in kwargs {
      StoredGenderIsSpelledOut(CleanString(kwargs["gender"]));
    }
  }

  /** `CanadianPerson` (utils.py:85-128). The attributes other than the name
      and the post are kept in one store keyed by attribute name. */
  class CanadianPerson {
    var name: string
    var postId: string
    var attributes: map<string, string>
    var links: seq<Link>
    var contactDetails: seq<ContactDetail>

    /** No stored gender is a single letter, and every contact detail's type is lower-case. */
    ghost predicate Valid()
      reads this
    {
      GenderValid() && TypesValid()
    }

    ghost predicate GenderValid()
      reads this`attributes
    {
      GenderSpelledOut(attributes)
    }

    ghost predicate TypesValid()
      reads this`contactDetails
    {
      LowerTypes(contactDetails)
    }

    /** `__init__` (utils.py:87-91): the base class stores the keyword
        arguments through `__setattr__`; then each is set again, cleaned. */
    constructor (name: string, postId: string, kwargs: map<string, string>)
      ensures this.name == CleanName(name) && this.postId == CleanString(postId)
      ensures attributes == CleanedAttributes(kwargs)
      ensures links == [] && contactDetails == []
      ensures Valid()
    {
      this.name := CleanName(name);
      this.postId := CleanString(postId);
      attributes := map k | k in kwargs :: Stored(k, kwargs[k]);
      links, contactDetails := [], [];
      new;
      if "gender" in kwargs {
        StoredGenderIsSpelledOut(kwargs["gender"]);
      }
      SetCleaned(kwargs);
    }

    /** The loop of `__init__` (utils.py:89-91): every keyword argument is set
        again, cleaned, through `__setattr__`. */
    method SetCleaned(kwargs: map<string, string>)
      requires attributes.Keys == kwargs.Keys
      modifies this
      ensures attributes == CleanedAttributes(kwargs)
      ensures unchanged(this`name, this`postId, this`links, this`contactDetails)
      ensures old(GenderValid()) ==> GenderValid()
    {
      var values := map k | k in kwargs :: CleanString(kwargs[k]);
      SetAll(values);
      SameMap(attributes, CleanedAttributes(kwargs));
    }

    /** Sets every attribute in `values` through `__setattr__`, one key at a time. */
    method SetAll(values: map<string, string>)
      requires attributes.Keys == values.Keys
      modifies this
      ensures attributes.Keys == values.Keys
      ensures forall k :: k in values ==> attributes[k] == Stored(k, values[k])
      ensures unchanged(this`name, this`postId, this`links, this`contactDetails)
      ensures old(GenderValid()) ==> GenderValid()
    {
      var rest := values.Keys;
      while rest != {}
        invariant rest <= values.Keys
        invariant forall k :: k in values <==> k in attributes
        invariant forall k :: k in values && k !in rest ==> attributes[k] == Stored(k, values[k])
        invariant unchanged(this`name, this`postId, this`links, this`contactDetails)
        invariant old(GenderValid()) ==> GenderValid()
        decreases rest
      {
        var k :| k in rest;
        SetAttribute(k, values[k]);
        rest := rest - {k};
      }
    }

    /** `__setattr__` (utils.py:93-99) for the attribute store. */
    method SetAttribute(key: string, value: string)
      modifies this
      ensures attributes == old(attributes)[key := Stored(key, value)]
      ensures unchanged(this`name, this`postId, this`links, this`contactDetails)
      ensures old(GenderValid()) ==> GenderValid()
    {
      var v := value;
      if key == "gender" {
        if v == "M" {
          v := "male";
        } else if v == "F" {
          v := "female";
        }
      }
      attributes := attributes[key := v];
    }

    /** `add_link` (utils.py:101-107): appends exactly one link. */
    method AddLink(url: string, note: string)
      modifies this
      ensures links == old(links) + [Link(note, LinkUrl(url))]
      ensures unchanged(this`name, this`postId, this`attributes, this`contactDetails)
      ensures old(Valid()) ==> Valid()
    {
      var u := url;
      if Www <= u {
        u := Http + u;
      }
      if IsHandle(u) {
        u := Twitter + u[1..];
      }
      links := links + [Link(note, u)];
    }

    /** `add_contact_detail` (utils.py:109-128): appends exactly one entry. */
    method AddContactDetail(kind: string, value: string, note: string)
      modifies this
      ensures contactDetails == old(contactDetails) + [MakeContactDetail(kind, value, note)]
      ensures unchanged(this`name, this`postId, this`attributes, this`links)
      ensures old(GenderValid()) ==> GenderValid()
      ensures old(TypesValid()) ==> TypesValid()
    {
      var d := NewContactDetail(kind, value, note);
      if TypesValid() {
        LowerTypesAppend(contactDetails, d);
      }
      contactDetails := contactDetails + [d];
    }
  }

  /** The entry `add_contact_detail` builds (utils.py:110-128). */
  method NewContactDetail(kind: string, value: string, note: string) returns (d: ContactDetail)
    ensures d == MakeContactDetail(kind, value, note)
  {
    var t := StoredType(kind);
    var n := StoredNote(note);
    var v := DetailValue(t, value);
    d := ContactDetail(t, v, n);
  }

  /** The type handling of `add_contact_detail` (utils.py:110-111, 114-115, 119). */
  method StoredType(kind: string) returns (t: string)
    ensures t == DetailType(kind)
  {
    t := kind;
    if t != [] {
      t := CleanString(t);
    }
    if t in TypeMap {
      t := TypeMap[t];
    }
    t := Lower(t);
  }

  /** The note handling of `add_contact_detail` (utils.py:112-113, 116-117). */
  method StoredNote(note: string) returns (r: Option<string>)
    ensures r == DetailNote(note)
  {
    var n := note;
    if n != [] {
      n := CleanString(n);
    }
    r := Some(n);
    if n in NoteMap {
      r := NoteMap[n];
    }
  }

  /** `AggregationPerson` (utils.py:133-149): the same cleaning, without
      links or contact details of its own. */
  class AggregationPerson {
    var name: string
    var postId: string
    var attributes: map<string, string>

    ghost predicate Valid()
      reads this
    {
      GenderSpelledOut(attributes)
    }

    /** `__init__` (utils.py:136-141). */
    constructor (name: string, postId: string, kwargs: map<string, string>)
      ensures this.name == CleanName(name) && this.postId == CleanString(postId)
      ensures attributes == CleanedAttributes(kwargs)
      ensures Valid()
    {
      this.name := CleanName(name);
      attributes := map k | k in kwargs :: Stored(k, kwargs[k]);
      this.postId := CleanString(postId);
      new;
      if "gender" in kwargs {
        StoredGenderIsSpelledOut(kwargs["gender"]);
      }
      SetCleaned(kwargs);
    }

    /** The loop of `__init__` (utils.py:139-141). */
    method SetCleaned(kwargs: map<string, string>)
      requires attributes.Keys == kwargs.Keys
      modifies this
      ensures attributes == CleanedAttributes(kwargs)
      ensures unchanged(this`name, this`postId)
      ensures old(Valid()) ==> Valid()
    {
      var values := map k | k in kwargs :: CleanString(kwargs[k]);
      SetAll(values);
      SameMap(attributes, CleanedAttributes(kwargs));
    }

    /** Sets every attribute in `values` through `__setattr__`, one key at a time. */
    method SetAll(values: map<string, string>)
      requires attributes.Keys == values.Keys
      modifies this
      ensures attributes.Keys == values.Keys
      ensures forall k :: k in values ==> attributes[k] == Stored(k, values[k])
      ensures unchanged(this`name, this`postId)
      ensures old(Valid()) ==> Valid()
    {
      var rest := values.Keys;
      while rest != {}
        invariant rest <= values.Keys
        invariant forall k :: k in values <==> k in attributes
        invariant forall k :: k in values && k !in rest ==> attributes[k] == Stored(k, values[k])
        invariant unchanged(this`name, this`postId)
        invariant old(Valid()) ==> Valid()
        decreases rest
      {
        var k :| k in rest;
        SetAttribute(k, values[k]);
        rest := rest - {k};
      }
    }

    /** `__setattr__` (utils.py:143-149) for the attribute store. */
    method SetAttribute(key: string, value: string)
      modifies this
      ensures attributes == old(attributes)[key := Stored(key, value)]
      ensures unchanged(this`name, this`postId)
      ensures old(Valid()) ==> Valid()
    {
      var v := value;
      if key == "gender" {
        if v == "M" {
          v := "male";
        } else if v == "F" {
          v := "female";
        }
      }
      attributes := attributes[key := v];
    }
  }
}
