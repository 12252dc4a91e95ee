/** The values `CanadianPerson` stores: contact details classified through the
    two lookup tables, links with their URL coerced, and the gender rewrite. */
module Contacts {
  import opened Chars
  import opened Options
  import opened Sanitize
  import opened Telephone
  import opened Address

  // ---------------------------------------------------------------------------
  // The tables (utils.py:17-71).

  /** `CONTACT_DETAIL_TYPE_MAP`: the type a site labels a detail with, to the
      type it is stored under. */
  const TypeMap: map<string, string> := map[
    "Address" := "address",
    "bb" := "cell",
    "bus" := "voice",
    "Bus" := "voice",
    "Bus." := "voice",
    "Business" := "voice",
    "Cell" := "cell",
    "Cell Phone" := "cell",
    "Email" := "email",
    "Fax" := "fax",
    "Home" := "voice",
    "Home Phone" := "voice",
    "Home Phone*" := "voice",
    "Office" := "voice",
    "ph" := "voice",
    "Phone" := "voice",
    "Res" := "voice",
    "Res/Bus" := "voice",
    "Residence" := "voice",
    "T\U{e9}l\U{e9}phone (bureau)" := "voice",
    "T\U{e9}l\U{e9}phone (cellulaire)" := "cell",
    "T\U{e9}l\U{e9}phone (r\U{e9}sidence)" := "voice",
    "T\U{e9}l\U{e9}phone (r\U{e9}sidence et bureau)" := "voice",
    "Voice Mail" := "voice",
    "Work" := "voice"
  ]

  /** `CONTACT_DETAIL_NOTE_MAP`: a note, to the note stored; `None` stands for
      Python's `None`, which the table gives for `Email`. */
  const NoteMap: map<string, Option<string>> := map[
    "Address" := Some("legislature"),
    "bb" := Some("legislature"),
    "bus" := Some("office"),
    "Bus" := Some("office"),
    "Bus." := Some("office"),
    "Business" := Some("office"),
    "Cell" := Some("legislature"),
    "Cell Phone" := Some("legislature"),
    "Email" := None,
    "Fax" := Some("legislature"),
    "Home" := Some("residence"),
    "Home Phone" := Some("residence"),
    "Home Phone*" := Some("residence"),
    "ph" := Some("legislature"),
    "Phone" := Some("legislature"),
    "Office" := Some("legislature"),
    "Res" := Some("residence"),
    "Res/Bus" := Some("office"),
    "Residence" := Some("residence"),
    "T\U{e9}l\U{e9}phone (bureau)" := Some("legislature"),
    "T\U{e9}l\U{e9}phone (cellulaire)" := Some("legislature"),
    "T\U{e9}l\U{e9}phone (r\U{e9}sidence)" := Some("residence"),
    "T\U{e9}l\U{e9}phone (r\U{e9}sidence et bureau)" := Some("legislature"),
    "Voice Mail" := Some("legislature"),
    "Work" := Some("legislature")
  ]

  /** The types whose values are telephone numbers (utils.py:122). */
  const PhoneTypes: set<string> := {"text", "voice", "fax", "cell", "video", "pager"}

  /** The two tables are keyed by the same labels. */
  lemma TablesShareKeys()
    ensures forall k :: k in TypeMap ==> k in NoteMap
    ensures forall k :: k in NoteMap ==> k in TypeMap
  {
  }

  /** The types the table gives are all lower-case already. */
  lemma TypeValuesAreLower()
    ensures forall k :: k in TypeMap ==> Lower(TypeMap[k]) == TypeMap[k]
  {
    var values := {"address", "cell", "voice", "email", "fax"};
    assert forall k :: k in TypeMap ==> TypeMap[k] in values;
    assert forall v :: v in values ==> Lower(v) == v;
  }

  // ---------------------------------------------------------------------------
  // `add_contact_detail` (utils.py:109-128), as values.

  /** One entry of `contact_details`. */
  datatype ContactDetail = ContactDetail(kind: string, value: string, note: Option<string>)

  /** The lower-case form of a string: no ASCII capital left. */
  predicate NoUpper(s: string) {
    forall i :: 0 <= i < |s| ==> !IsUpper(s[i])
  }

  /** `clean_string`, applied only when the argument is not empty (utils.py:110-113). */
  function CleanIfAny(s: string): (r: string)
    ensures r == CleanString(s)
  {
    if s != [] then CleanString(s) else s
  }

  /** The type stored for a detail labelled `t`: cleaned, looked up exactly in
      `TypeMap` (an unknown label is kept), then lower-cased (utils.py:110-111, 114-115, 119). */
  function DetailType(t: string): (r: string)
    ensures NoUpper(r)
    ensures CleanString(t) in TypeMap ==> r == TypeMap[CleanString(t)]
    ensures CleanString(t) !in TypeMap ==> r == Lower(CleanString(t))
  {
    var c := CleanIfAny(t);
    var m := if c in TypeMap then TypeMap[c] else c;
    TypeValuesAreLower();
    Lower(m)
  }

  /** The note stored for a detail noted `n`: cleaned and looked up exactly in
      `NoteMap`, which is keyed by the same labels as the types (utils.py:112-113, 116-117). */
  function DetailNote(n: string): (r: Option<string>)
    ensures CleanString(n) in NoteMap ==> r == NoteMap[CleanString(n)]
    ensures CleanString(n) !in NoteMap ==> r == Some(CleanString(n))
  {
    var c := CleanIfAny(n);
    if c in NoteMap then NoteMap[c] else Some(c)
  }

  /** The value stored under type `kind` (utils.py:121-126). */
  function DetailValue(kind: string, v: string): (r: string)
  {
    if kind in PhoneTypes then CleanTelephoneNumber(CleanString(v))
    else if kind == "address" then CleanAddress(v)
    else CleanString(v)
  }

  /** The entry `add_contact_detail(type=t, value=v, note=n)` appends. */
  function MakeContactDetail(t: string, v: string, n: string): (d: ContactDetail)
    ensures d.kind == DetailType(t) && d.note == DetailNote(n)
    ensures d.value == DetailValue(d.kind, v)
  {
    var kind := DetailType(t);
    ContactDetail(kind, DetailValue(kind, v), DetailNote(n))
  }

  /** A label of the tables, however it is spaced, is classified by its entries. */
  lemma KnownLabel(t: string, k: string)
    requires k in TypeMap && CleanString(t) == k
    ensures DetailType(t) == TypeMap[k]
    ensures DetailNote(t) == NoteMap[k]
  {
    TablesShareKeys();
  }

  /** Classification only sees the cleaned label. */
  lemma DetailTypeSeesCleaned(t: string)
    ensures DetailType(t) == DetailType(CleanString(t))
    ensures DetailNote(t) == DetailNote(CleanString(t))
  {
    CleanStringIdempotent(t);
  }

  /** An empty type raises nothing: it is kept as it is. */
  lemma EmptyTypeIsKept(t: string)
    requires |t| == 0
    ensures DetailType(t) == t
  {
    assert CleanIfAny(t) == t;
    assert t !in TypeMap;
  }

  /** Every telephone type, and the address type, is at least three letters long. */
  lemma ShortIsPlain(kind: string)
    requires |kind| < 3
    ensures kind !in PhoneTypes && kind != "address"
  {
  }

  /** A value stored under a type other than a telephone type or the
      address is only cleaned. */
  lemma PlainValue(kind: string, v: string)
    requires kind !in PhoneTypes && kind != "address"
    ensures DetailValue(kind, v) == CleanString(v)
  {
  }

  /** The value of a detail with an empty type is only cleaned. */
  lemma EmptyTypeIsPlain(t: string, v: string, n: string)
    requires |t| == 0
    ensures MakeContactDetail(t, v, n).value == CleanString(v)
  {
    EmptyTypeIsKept(t);
    ShortIsPlain(t);
    PlainValue(t, v);
  }

  /** The value of a detail whose type is a telephone type is the cleaned
      value, formatted as `1-AAA-PPP-LLLL` when it is a recognized number. */
  lemma PhoneDetailValue(t: string, v: string, n: string)
    requires DetailType(t) in PhoneTypes
    ensures var d := MakeContactDetail(t, v, n);
            var c := CleanString(v);
            && (Recognized(c) ==> |d.value| >= 14 && IsCanonical(d.value[..14]))
            && (!Recognized(c) ==> d.value == c)
  {
  }

  /** Every value stored under a type other than a telephone type or the
      address is a clean string. */
  lemma PlainDetailValueIsClean(t: string, v: string, n: string)
    requires DetailType(t) !in PhoneTypes && DetailType(t) != "address"
    ensures IsClean(MakeContactDetail(t, v, n).value)
  {
    CleanStringIsClean(v);
  }

  // ---------------------------------------------------------------------------
  // `add_link` (utils.py:101-107).

  /** One entry of `links`. */
  datatype Link = Link(note: string, url: string)

  /** `\A@[A-Za-z]+\Z` */
  predicate IsHandle(u: string) {
    |u| >= 2 && u[0] == '@' && forall i :: 1 <= i < |u| ==> IsAsciiLetter(u[i])
  }

  const Www: string := "www."
  const Http: string := "http://"
  const Twitter: string := "https://twitter.com/"

  /** The URL `add_link` stores: `www.` addresses get a scheme, a bare handle
      becomes a Twitter URL, anything else is stored as given. */
  function LinkUrl(url: string): (r: string)
    ensures Www <= url ==> r == Http + url
    ensures IsHandle(url) ==> r == Twitter + url[1..]
    ensures !(Www <= url) && !IsHandle(url) ==> r == url
  {
    var u := if Www <= url then Http + url else url;
    if IsHandle(u) then Twitter + u[1..] else u
  }

  /** Storing a stored URL again leaves it as it is. */
  lemma LinkUrlIdempotent(url: string)
    ensures LinkUrl(LinkUrl(url)) == LinkUrl(url)
  {
    var r := LinkUrl(url);
    if Www <= url {
      assert r[0] == 'h';
    } else if IsHandle(url) {
      assert r[0] == 'h';
    }
  }

  // ---------------------------------------------------------------------------
  // `__setattr__` (utils.py:93-99, 143-149).

  /** The value stored when attribute `name` is set to `v`. */
  function Stored(name: string, v: string): (r: string)
    ensures name == "gender" && v == "M" ==> r == "male"
    ensures name == "gender" && v == "F" ==> r == "female"
    ensures name != "gender" || (v != "M" && v != "F") ==> r == v
  {
    if name == "gender" && v == "M" then "male"
    else if name == "gender" && v == "F" then "female"
    else v
  }

  /** A stored gender is never the one-letter form. */
  lemma StoredGenderIsSpelledOut(v: string)
    ensures Stored("gender", v) != "M" && Stored("gender", v) != "F"
  {
  }

  /** Setting an attribute to what was stored for it stores the same value. */
  lemma StoredIdempotent(name: string, v: string)
    ensures Stored(name, Stored(name, v)) == Stored(name, v)
  {
  }
}
