/** The positional schema `BookPlayerArgs` and the record `BookChapter`, decoded from a
    JSON value the way `serde_json` drives the derived `Deserialize` implementations:
    a tuple struct reads a JSON array element by element; a struct with named fields reads
    a JSON object member by member (unknown keys skipped, a repeated field rejected, a
    missing field rejected at the end) or, alternatively, a JSON array of its fields in
    declaration order. A `Vec` reads a JSON array and stops at its first bad element. */
module ChapterDecode {
  import opened Wrappers
  import opened Json

  /** `BookChapter`. `duration_float` is an `f32` in the source; here it is the exact
      number the page wrote. */
  datatype BookChapter = BookChapter(durationFloat: real, title: string, url: string)

  /** `BookPlayerArgs`, the eight arguments of the player's constructor. */
  datatype BookPlayerArgs = BookPlayerArgs(
    arg0: Value,
    chapters: seq<BookChapter>,
    arg2: seq<Value>,
    arg3: seq<Value>,
    arg4: Value,
    arg5: Value,
    arg6: Value,
    arg7: Value)

  /** Why a well-formed JSON value does not fit the schema. All but `TrailingElements` are
      serde's own error kinds; `TrailingElements` names the error serde_json reports as
      "trailing characters" when an array holds more elements than the type reads. */
  datatype SchemaError =
    | InvalidType                       // a value of the wrong JSON kind
    | InvalidLength(found: nat)         // an array with too few elements
    | TrailingElements                  // an array with too many elements (serde_json's "trailing characters")
    | DuplicateField(field: string)     // a field given twice in one object
    | MissingField(field: string)       // a field absent from an object

  const DurationKey := "duration_float"
  const TitleKey := "title"
  const UrlKey := "url"

  /** The JSON kind each field of `BookChapter` accepts. */
  predicate FitsField(key: string, v: Value) {
    if key == DurationKey then v.Number? else v.Str?
  }

  predicate IsChapterField(key: string) {
    key == DurationKey || key == TitleKey || key == UrlKey
  }

  /** The visitor of a chapter object: walks the members in order, keeping the fields seen
      so far; an unknown key is skipped, a known one must be new and of the right kind. */
  function VisitMembers(members: seq<Member>, seen: map<string, Value>): (r: Result<map<string, Value>, SchemaError>)
    ensures r.Err? ==> r.error == InvalidType || (r.error.DuplicateField? && IsChapterField(r.error.field))
    ensures r.Ok? ==> forall k :: k in seen ==> k in r.value && r.value[k] == seen[k]
    ensures r.Ok? ==> forall k :: k in r.value && k !in seen ==> IsChapterField(k)
    decreases |members|
  {
    if members == [] then Ok(seen)
    else
      var m := members[0];
      if !IsChapterField(m.key) then VisitMembers(members[1..], seen)
      else if m.key in seen then Err(DuplicateField(m.key))
      else if !FitsField(m.key, m.value) then Err(InvalidType)
      else VisitMembers(members[1..], seen[m.key := m.value])
  }

  /** After the members: every field must have been seen, checked in declaration order. */
  function FinishChapter(seen: map<string, Value>): (r: Result<BookChapter, SchemaError>)
    requires forall k :: k in seen ==> FitsField(k, seen[k])
    ensures r.Ok? <==> DurationKey in seen && TitleKey in seen && UrlKey in seen
    ensures r.Ok? ==> && seen[DurationKey] == Number(r.value.durationFloat)
                      && seen[TitleKey] == Str(r.value.title) && seen[UrlKey] == Str(r.value.url)
    ensures r.Err? ==> r.error.MissingField? && IsChapterField(r.error.field) && r.error.field !in seen
    ensures DurationKey !in seen ==> r == Err(MissingField(DurationKey))
    ensures r == Err(MissingField(TitleKey)) ==> DurationKey in seen
    ensures r == Err(MissingField(UrlKey)) ==> DurationKey in seen && TitleKey in seen
  {
    if DurationKey !in seen then Err(MissingField(DurationKey))
    else if TitleKey !in seen then Err(MissingField(TitleKey))
    else if UrlKey !in seen then Err(MissingField(UrlKey))
    else
      assert FitsField(DurationKey, seen[DurationKey]) && FitsField(TitleKey, seen[TitleKey]);
      assert FitsField(UrlKey, seen[UrlKey]);
      Ok(BookChapter(seen[DurationKey].n, seen[TitleKey].s, seen[UrlKey].s))
  }

  /** `BookChapter::deserialize`. */
  function DecodeChapter(v: Value): (r: Result<BookChapter, SchemaError>)
    ensures !v.Object? && !v.Array? ==> r == Err(InvalidType)
    ensures v.Object? && r.Err? ==>
              || r.error == InvalidType
              || (r.error.DuplicateField? && IsChapterField(r.error.field))
              || (r.error.MissingField? && IsChapterField(r.error.field))
    ensures v.Array? && r.Err? ==>
              r.error == InvalidType || r.error == TrailingElements || (r.error.InvalidLength? && r.error.found < 3)
  {
    match v
    case Object(members) =>
      var seen :- VisitMembers(members, map[]);
      VisitKeepsFieldsTyped(members, map[]);
      FinishChapter(seen)
    case Array(items) =>
      if |items| < 1 then Err(InvalidLength(0))
      else if !items[0].Number? then Err(InvalidType)
      else if |items| < 2 then Err(InvalidLength(1))
      else if !items[1].Str? then Err(InvalidType)
      else if |items| < 3 then Err(InvalidLength(2))
      else if !items[2].Str? then Err(InvalidType)
      else if |items| > 3 then Err(TrailingElements)
      else Ok(BookChapter(items[0].n, items[1].s, items[2].s))
    case _ => Err(InvalidType)
  }

  lemma {:induction false} VisitKeepsFieldsTyped(members: seq<Member>, seen: map<string, Value>)
    requires forall k :: k in seen ==> FitsField(k, seen[k])
    ensures VisitMembers(members, seen).Ok? ==>
              forall k :: k in VisitMembers(members, seen).value ==> FitsField(k, VisitMembers(members, seen).value[k])
    decreases |members|
  {
    if members != [] {
      var m := members[0];
      if !IsChapterField(m.key) {
        VisitKeepsFieldsTyped(members[1..], seen);
      } else if m.key !in seen && FitsField(m.key, m.value) {
        VisitKeepsFieldsTyped(members[1..], seen[m.key := m.value]);
      }
    }
  }

  /** `Vec<BookChapter>::deserialize`: all elements or nothing. */
  function DecodeChapterList(items: seq<Value>): (r: Result<seq<BookChapter>, SchemaError>)
    ensures r.Ok? <==> forall i :: 0 <= i < |items| ==> DecodeChapter(items[i]).Ok?
    ensures r.Ok? ==> |r.value| == |items|
                      && forall i :: 0 <= i < |items| ==> r.value[i] == DecodeChapter(items[i]).value
    decreases |items|
  {
    if items == [] then Ok([])
    else
      var first :- DecodeChapter(items[0]);
      var rest :- DecodeChapterList(items[1..]);
      Ok([first] + rest)
  }

  /** `BookPlayerArgs::deserialize`: a JSON array read position by position; element 1 is
      the chapter list, elements 2 and 3 must be arrays, the rest may be anything, and
      there must be exactly eight. */
  function DecodePlayerArgs(v: Value): (r: Result<BookPlayerArgs, SchemaError>)
    ensures r.Ok? <==> && v.Array? && |v.items| == 8
                       && v.items[1].Array? && DecodeChapterList(v.items[1].items).Ok?
                       && v.items[2].Array? && v.items[3].Array?
    ensures r.Ok? ==> r.value.chapters == DecodeChapterList(v.items[1].items).value
    ensures r.Ok? ==> && r.value.arg0 == v.items[0]
                      && r.value.arg2 == v.items[2].items && r.value.arg3 == v.items[3].items
                      && r.value.arg4 == v.items[4] && r.value.arg5 == v.items[5]
                      && r.value.arg6 == v.items[6] && r.value.arg7 == v.items[7]
  {
    if !v.Array? then Err(InvalidType)
    else
      var items := v.items;
      if |items| < 1 then Err(InvalidLength(0))
      else if |items| < 2 then Err(InvalidLength(1))
      else if !items[1].Array? then Err(InvalidType)
      else
        var chapters :- DecodeChapterList(items[1].items);
        if |items| < 3 then Err(InvalidLength(2))
        else if !items[2].Array? then Err(InvalidType)
        else if |items| < 4 then Err(InvalidLength(3))
        else if !items[3].Array? then Err(InvalidType)
        else if |items| < 8 then Err(InvalidLength(|items|))
        else if |items| > 8 then Err(TrailingElements)
        else Ok(BookPlayerArgs(items[0], chapters, items[2].items, items[3].items,
                               items[4], items[5], items[6], items[7]))
  }

  // What the decoding means for chapter objects: each of the three fields exactly once
  // and of the right kind, whatever else the object holds.

  /** The object's members name `key` exactly once, with a value of the field's kind. */
  predicate HasField(members: seq<Member>, key: string) {
    |ValuesOf(members, key)| == 1 && FitsField(key, ValuesOf(members, key)[0])
  }

  /** What the member visitor accepts of one field, given the fields already seen. */
  predicate Admissible(members: seq<Member>, seen: map<string, Value>, key: string) {
    || ValuesOf(members, key) == []
    || (key !in seen && |ValuesOf(members, key)| == 1 && FitsField(key, ValuesOf(members, key)[0]))
  }

  /** What the member visitor ends with for one field. */
  predicate Collected(members: seq<Member>, seen: map<string, Value>, key: string, out: map<string, Value>) {
    && (key in out <==> key in seen || ValuesOf(members, key) != [])
    && (key in out ==> out[key] == if key in seen then seen[key] else ValuesOf(members, key)[0])
  }

  lemma {:induction false} VisitMembersSpec(members: seq<Member>, seen: map<string, Value>, key: string)
    requires IsChapterField(key)
    ensures VisitMembers(members, seen).Ok? ==> Admissible(members, seen, key)
    ensures VisitMembers(members, seen).Ok? ==> Collected(members, seen, key, VisitMembers(members, seen).value)
    decreases |members|
  {
    if members != [] {
      var m, rest := members[0], members[1..];
      assert members == [m] + rest;
      assert ValuesOf(members, key) == (if m.key == key then [m.value] else []) + ValuesOf(rest, key);
      if !IsChapterField(m.key) {
        VisitMembersSpec(rest, seen, key);
      } else if m.key !in seen && FitsField(m.key, m.value) {
        VisitMembersSpec(rest, seen[m.key := m.value], key);
      }
    }
  }

  /** One member further along, a field the visitor accepts stays acceptable. */
  lemma AdmissibleStep(members: seq<Member>, seen: map<string, Value>, key: string)
    requires members != [] && Admissible(members, seen, key)
    ensures members[0].key == key ==> members[0].key !in seen && FitsField(key, members[0].value)
    ensures IsChapterField(members[0].key) ==> Admissible(members[1..], seen[members[0].key := members[0].value], key)
    ensures !IsChapterField(members[0].key) ==> Admissible(members[1..], seen, key)
  {
    var m := members[0];
    assert ValuesOf(members, key) == (if m.key == key then [m.value] else []) + ValuesOf(members[1..], key);
  }

  lemma {:induction false} VisitMembersSucceeds(members: seq<Member>, seen: map<string, Value>)
    requires Admissible(members, seen, DurationKey)
    requires Admissible(members, seen, TitleKey)
    requires Admissible(members, seen, UrlKey)
    ensures VisitMembers(members, seen).Ok?
    decreases |members|
  {
    if members != [] {
      var m := members[0];
      AdmissibleStep(members, seen, DurationKey);
      AdmissibleStep(members, seen, TitleKey);
      AdmissibleStep(members, seen, UrlKey);
      if IsChapterField(m.key) {
        VisitMembersSucceeds(members[1..], seen[m.key := m.value]);
      } else {
        VisitMembersSucceeds(members[1..], seen);
      }
    }
  }

  /** A chapter object decodes exactly when each of `duration_float`, `title` and `url`
      occurs once with a value of the right kind; the chapter then holds those values.
      Any other member is ignored. */
  lemma ChapterObjectSpec(members: seq<Member>)
    ensures DecodeChapter(Object(members)).Ok? <==>
              HasField(members, DurationKey) && HasField(members, TitleKey) && HasField(members, UrlKey)
    ensures DecodeChapter(Object(members)).Ok? ==>
              DecodeChapter(Object(members)).value == BookChapter(
                ValuesOf(members, DurationKey)[0].n, ValuesOf(members, TitleKey)[0].s, ValuesOf(members, UrlKey)[0].s)
  {
    var seen: map<string, Value> := map[];
    VisitKeepsFieldsTyped(members, seen);
    VisitMembersSpec(members, seen, DurationKey);
    VisitMembersSpec(members, seen, TitleKey);
    VisitMembersSpec(members, seen, UrlKey);
    if HasField(members, DurationKey) && HasField(members, TitleKey) && HasField(members, UrlKey) {
      VisitMembersSucceeds(members, seen);
    }
  }

  /** A member whose key is not a field of `BookChapter` changes nothing, wherever it stands. */
  lemma {:induction false} UnknownMemberIgnored(before: seq<Member>, m: Member, after: seq<Member>, seen: map<string, Value>)
    requires !IsChapterField(m.key)
    ensures VisitMembers(before + [m] + after, seen) == VisitMembers(before + after, seen)
    decreases |before|
  {
    if before == [] {
      var ms := before + [m] + after;
      assert ms[0] == m && ms[1..] == before + after;
    } else {
      var b := before[0];
      assert (before + [m] + after)[0] == b && (before + [m] + after)[1..] == before[1..] + [m] + after;
      assert (before + after)[0] == b && (before + after)[1..] == before[1..] + after;
      if !IsChapterField(b.key) {
        UnknownMemberIgnored(before[1..], m, after, seen);
      } else if b.key !in seen && FitsField(b.key, b.value) {
        UnknownMemberIgnored(before[1..], m, after, seen[b.key := b.value]);
      }
    }
  }

  /** The array form of a chapter: exactly a number and two strings, in field order. */
  lemma ChapterArraySpec(items: seq<Value>)
    ensures DecodeChapter(Array(items)).Ok? <==>
              |items| == 3 && items[0].Number? && items[1].Str? && items[2].Str?
    ensures DecodeChapter(Array(items)).Ok? ==>
              DecodeChapter(Array(items)).value == BookChapter(items[0].n, items[1].s, items[2].s)
  {
  }

  /** Extra keys in a chapter object are ignored. */
  lemma ExtraKeyIgnored(before: seq<Member>, m: Member, after: seq<Member>)
    requires !IsChapterField(m.key)
    ensures DecodeChapter(Object(before + [m] + after)) == DecodeChapter(Object(before + after))
  {
    UnknownMemberIgnored(before, m, after, map[]);
  }

  // The JSON the page writes for a chapter, and the round trips through the decoder.

  function EncodeChapter(c: BookChapter): Value {
    Object([Member(DurationKey, Number(c.durationFloat)), Member(TitleKey, Str(c.title)), Member(UrlKey, Str(c.url))])
  }

  function EncodeChapterList(cs: seq<BookChapter>): (vs: seq<Value>)
  {
    seq(|cs|, i requires 0 <= i < |cs| => EncodeChapter(cs[i]))
  }

  /** The player arguments written back as the JSON array the page passes. */
  function EncodePlayerArgs(a: BookPlayerArgs): Value {
    Array([a.arg0, Array(EncodeChapterList(a.chapters)), Array(a.arg2), Array(a.arg3),
           a.arg4, a.arg5, a.arg6, a.arg7])
  }

  lemma ChapterRoundTrip(c: BookChapter)
    ensures DecodeChapter(EncodeChapter(c)) == Ok(c)
  {
    var ms := EncodeChapter(c).members;
    var s1 := map[DurationKey := Number(c.durationFloat)];
    var s2 := s1[TitleKey := Str(c.title)];
    var s3 := s2[UrlKey := Str(c.url)];
    assert VisitMembers(ms[3..], s3) == Ok(s3);
    assert VisitMembers(ms[2..], s2) == Ok(s3);
    assert VisitMembers(ms[1..], s1) == Ok(s3);
    assert VisitMembers(ms, map[]) == Ok(s3);
  }

  lemma ChapterListRoundTrip(cs: seq<BookChapter>)
    ensures DecodeChapterList(EncodeChapterList(cs)) == Ok(cs)
  {
    var vs := EncodeChapterList(cs);
    forall i | 0 <= i < |cs| ensures DecodeChapter(vs[i]) == Ok(cs[i]) {
      ChapterRoundTrip(cs[i]);
    }
    assert DecodeChapterList(vs).value == cs;
  }

  /** Decoding inverts encoding: the chapters, and every opaque position, come back. */
  lemma PlayerArgsRoundTrip(a: BookPlayerArgs)
    ensures DecodePlayerArgs(EncodePlayerArgs(a)) == Ok(a)
  {
    ChapterListRoundTrip(a.chapters);
  }
}
