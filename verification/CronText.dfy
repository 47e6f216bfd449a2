/** memos/lib/cron/parser.go, Parse and ParseStandard: from the text of an expression to its fields or its
    descriptor. */
module CronText {
  import opened Calendar
  import opened Text
  import opened CronField
  import opened CronSpec
  import opened CronParser

  /** What a text comes to. A time zone that nothing follows leaves Go's slice expression without an end. */
  datatype Outcome = Spec(spec: SpecSchedule) | Every(duration: int) | Refused | Panics

  predicate HasZone(text: string) {
    "TZ=" <= text || "CRON_TZ=" <= text
  }

  function FromSpace(text: string): string
    requires ' ' in text
  {
    if text[0] == ' ' then text else FromSpace(text[1..])
  }

  /** The text after its time zone, if it names one. */
  function Body(text: string): string
    requires HasZone(text) ==> ' ' in text
  {
    if HasZone(text) then TrimSpace(FromSpace(text)) else text
  }

  const EVERY := "@every "

  function Named(name: string): Option<Predefined> {
    if name == "@yearly" || name == "@annually" then Some(Yearly)
    else if name == "@monthly" then Some(Monthly)
    else if name == "@weekly" then Some(Weekly)
    else if name == "@daily" || name == "@midnight" then Some(Daily)
    else if name == "@hourly" then Some(Hourly)
    else None
  }

  /** What stands at the six places of these fields. */
  ghost predicate Places(fields: seq<string>, o: Options, all: seq<string>) {
    && Fitting(fields, o) && |all| == 6 && Picked(all, o, 6) == Filled(fields, o)
    && forall i :: 0 <= i < 6 && !Takes(o, i) ==> all[i] == DEFAULTS[i]
  }

  ghost predicate FieldsParsedAs(fields: seq<string>, o: Options, r: Outcome) {
    if exists all :: Places(fields, o, all) && AcceptedSix(all)
    then r.Spec? && exists all :: Places(fields, o, all) && AcceptedSix(all) && StoresSix(r.spec, all)
    else r == Refused
  }

  ghost predicate BodyParsedAs(body: string, o: Options, descriptors: bool, duration: Option<int>, r: Outcome) {
    if "@" <= body then
      r == if !descriptors then Refused
           else if Named(body).Some? then Spec(ScheduleOf(Named(body).value))
           else if EVERY <= body && duration.Some? then Every(duration.value)
           else Refused
    else FieldsParsedAs(Words(body), o, r)
  }

  /** Whether the zone is known, and the duration after `@every `, are answers of Go's time package. */
  ghost predicate ParsedAs(text: string, o: Options, descriptors: bool, zoneKnown: bool, duration: Option<int>,
                           r: Outcome) {
    if text == "" then r == Refused
    else if HasZone(text) && ' ' !in text then r == Panics
    else if HasZone(text) && !zoneKnown then r == Refused
    else BodyParsedAs(Body(text), o, descriptors, duration, r)
  }

  method ParseDescriptor(name: string, duration: Option<int>) returns (r: Outcome)
    requires "@" <= name
    ensures forall o :: BodyParsedAs(name, o, true, duration, r)
  {
    match Named(name)
    case Some(p) => return Spec(ScheduleOf(p));
    case None =>
      if EVERY <= name && duration.Some? {
        return Every(duration.value);
      }
      return Refused;
  }

  method ParseFields(fields: seq<string>, o: Options) returns (r: Outcome)
    ensures FieldsParsedAs(fields, o, r)
  {
    hide AcceptedSix, StoresSix, Picked, Filled, Fitting, Takes;
    ghost var all;
    var spec;
    spec, all := Parse(fields, o);
    if spec.None? {
      NotParsed(fields, o, all);
      return Refused;
    }
    assert Places(fields, o, all) && AcceptedSix(all) && StoresSix(spec.value, all);
    return Spec(spec.value);
  }

  /** The six places are one, so if they are not accepted none are. */
  lemma NotParsed(fields: seq<string>, o: Options, all: seq<string>)
    requires Fitting(fields, o) ==> Places(fields, o, all) && !AcceptedSix(all)
    ensures forall other :: Places(fields, o, other) ==> !AcceptedSix(other)
  {
    hide AcceptedSix, Picked, Filled, Fitting, Takes;
    forall other | Places(fields, o, other) ensures !AcceptedSix(other) {
      PlacesUnique(all, other, o, 6);
      assert all[..6] == all && other[..6] == other;
    }
  }

  /** `Parse`. */
  method ParseText(text: string, o: Options, descriptors: bool, zoneKnown: bool, duration: Option<int>)
    returns (r: Outcome)
    ensures ParsedAs(text, o, descriptors, zoneKnown, duration, r)
  {
    hide FieldsParsedAs, Words;
    if text == "" {
      return Refused;
    }
    var spec := text;
    if HasZone(text) {
      if ' ' !in text {
        return Panics;
      }
      if !zoneKnown {
        return Refused;
      }
      spec := TrimSpace(FromSpace(text));
    }
    if "@" <= spec {
      if !descriptors {
        return Refused;
      }
      r := ParseDescriptor(spec, duration);
    } else {
      r := ParseFields(Words(spec), o);
    }
  }

  /** Five fields, the first of which is neither a time zone nor a descriptor. */
  predicate FiveFields(fields: seq<string>) {
    |fields| == 5 && (forall f <- fields :: f != "" && NoSpace(f)) && !HasZone(fields[0]) && !("@" <= fields[0])
  }

  /** `ParseStandard` on five fields separated by spaces: accepted exactly if each is, and the schedule stores
      exactly their value sets, at second 0. */
  lemma StandardExpression(fields: seq<string>, zoneKnown: bool, duration: Option<int>, r: Outcome)
    requires FiveFields(fields) && ParsedAs(Join(fields, ' '), STANDARD, true, zoneKnown, duration, r)
    ensures r.Spec? || r == Refused
    ensures r.Spec? <==> AcceptedFive(fields)
    ensures r.Spec? ==> Stores(r.spec, fields)
  {
    PlainText(fields);
    WordsOfJoin(fields);
    hide Words, Join, HasZone;
    assert FieldsParsedAs(fields, STANDARD, r);
    OnlyPlaces(fields);
    ZeroAccepted();
    hide Places, FiveFields, Accepted, FieldBits, ParsedAs, BodyParsedAs;
    assert AcceptedSix(["0"] + fields) <==> AcceptedFive(fields);
  }

  lemma PlainText(fields: seq<string>)
    requires FiveFields(fields)
    ensures var text := Join(fields, ' '); text != "" && !HasZone(text) && !("@" <= text)
  {
    assert fields[0] in fields;
    NoPrefix(fields[0], Join(fields[1..], ' '), "@");
    NoPrefix(fields[0], Join(fields[1..], ' '), "TZ=");
    NoPrefix(fields[0], Join(fields[1..], ' '), "CRON_TZ=");
  }

  /** A prefix without spaces lies within the first word. */
  lemma NoPrefix(word: string, rest: string, p: string)
    requires ' ' !in p && !(p <= word)
    ensures !(p <= word + [' '] + rest)
  {
    assert (word + [' '] + rest)[|word|] == ' ';
  }

  lemma OnlyPlaces(fields: seq<string>)
    requires |fields| == 5
    ensures forall all :: Places(fields, STANDARD, all) <==> all == ["0"] + fields
  {
    hide Picked, Filled;
    StandardCount(fields);
    StandardIsPlaces(fields);
    forall all | Places(fields, STANDARD, all) ensures all == ["0"] + fields {
      StandardPlaces(fields, all);
    }
  }

  lemma StandardIsPlaces(fields: seq<string>)
    requires |fields| == 5
    ensures Places(fields, STANDARD, ["0"] + fields)
  {
    StandardCount(fields);
    var b := ["0"] + fields;
    assert Picked(b, STANDARD, 2) == [b[1]] && Picked(b, STANDARD, 3) == [b[1], b[2]];
    assert Picked(b, STANDARD, 5) == [b[1], b[2], b[3], b[4]];
    assert Picked(b, STANDARD, 6) == fields;
  }

  /** A descriptor and the expression it abbreviates are both accepted, and store the same value sets. */
  lemma DescriptorIsExpression(name: string, zoneKnown: bool, duration: Option<int>, r: Outcome, q: Outcome)
    requires Named(name).Some? && ParsedAs(name, STANDARD, true, zoneKnown, duration, r)
    requires ParsedAs(Join(FieldsOf(Named(name).value), ' '), STANDARD, true, zoneKnown, duration, q)
    ensures r.Spec? && q.Spec?
    ensures Stores(r.spec, FieldsOf(Named(name).value)) && Stores(q.spec, FieldsOf(Named(name).value))
  {
    hide Named, ScheduleOf, Stores, AcceptedFive, FiveFields, FieldsOf, Join;
    var p := Named(name).value;
    NamedShape(name);
    assert r == Spec(ScheduleOf(p));
    hide ParsedAs;
    PredefinedFields(p);
    PredefinedIsExpression(p);
    StandardExpression(FieldsOf(p), zoneKnown, duration, q);
  }

  lemma NamedShape(name: string)
    requires Named(name).Some?
    ensures "@" <= name && !HasZone(name)
  {
    assert name[0] == '@';
  }

  lemma PredefinedFields(p: Predefined)
    ensures FiveFields(FieldsOf(p))
  {
    assert FieldsOf(p)[0] == "0";
    assert "@"[0] != "0"[0] && "TZ="[0] != "0"[0] && "CRON_TZ="[0] != "0"[0];
  }

  lemma {:induction false} FromFirstSpace(head: string, rest: string)
    requires ' ' !in head
    ensures ' ' in head + [' '] + rest && FromSpace(head + [' '] + rest) == [' '] + rest
  {
    var text := head + [' '] + rest;
    assert text[|head|] == ' ';
    if head == "" {
      assert text == [' '] + rest;
    } else {
      assert text[0] == head[0] && head[0] in head;
      assert text[1..] == head[1..] + [' '] + rest;
      FromFirstSpace(head[1..], rest);
    }
  }

  /** A known time zone in front of an expression leaves the reading of the expression as it is; with nothing
      but the zone, parsing panics. */
  lemma ZoneInFront(zone: string, text: string, o: Options, descriptors: bool, duration: Option<int>, r: Outcome)
    requires ' ' !in zone && text != "" && !IsSpace(text[0]) && !IsSpace(text[|text| - 1]) && !HasZone(text)
    ensures ParsedAs("TZ=" + zone + [' '] + text, o, descriptors, true, duration, r) <==>
            ParsedAs(text, o, descriptors, true, duration, r)
    ensures ParsedAs("TZ=" + zone, o, descriptors, true, duration, r) <==> r == Panics
  {
    var head := "TZ=" + zone;
    var whole := head + [' '] + text;
    assert "TZ=" <= head && "TZ=" <= whole;
    assert whole != "" && head != "";
    FromFirstSpace(head, text);
    assert ([' '] + text)[1..] == text;
    assert TrimSpace([' '] + text) == text;
    hide BodyParsedAs;
  }
}
