/** `Exporter`: one line of text per dictionary object, its fields joined by
    a separator ("@" by default). The object's class picks the field tuple,
    the first listed base class it is an instance of winning. */
module Exporter {
  import opened Common
  import opened Schema
  import Text
  import DefinitionModel
  import opened WordConverter

  const DefaultSeparator: string := "@"

  // ---------------------------------------------------------------- merge_by

  /** The text of each field as `merge_by` writes it: `str(i or "")`. */
  function FieldTexts(items: seq<Field>): (r: seq<string>)
    ensures |r| == |items|
    ensures forall i :: 0 <= i < |items| ==> r[i] == Stringer(items[i])
  {
    if items == [] then [] else [Stringer(items[0])] + FieldTexts(items[1..])
  }

  /** `merge_by(items, separator)`. */
  function MergeBy(items: seq<Field>, separator: string): string {
    Text.Join(FieldTexts(items), separator)
  }

  /** Splitting the line on a one-character separator that no field text
      contains gives back the field texts, one per field: None, "", 0 and
      False come back as empty fields. */
  lemma MergeBySplit(items: seq<Field>, separator: string)
    requires |items| >= 1 && |separator| == 1
    requires forall i :: 0 <= i < |items| ==> separator[0] !in Stringer(items[i])
    ensures Text.Split(MergeBy(items, separator), separator) == FieldTexts(items)
    ensures forall i :: 0 <= i < |items| ==> (FieldTexts(items)[i] == "" <==> !Truthy(items[i]))
  {
    Text.SplitJoin(FieldTexts(items), separator);
  }

  // ---------------------------------------------------------------- dates

  /** `strftime("%m/%d/%Y")`. */
  function EventDate(d: Date): string {
    Text.ZeroPad(d.month, 2) + "/" + Text.ZeroPad(d.day, 2) + "/" + Text.ZeroPad(d.year, 4)
  }

  /** `strftime("%d.%m.%Y %H:%M:%S")`. */
  function SettingDate(t: DateTime): string {
    Text.ZeroPad(t.date.day, 2) + "." + Text.ZeroPad(t.date.month, 2) + "." + Text.ZeroPad(t.date.year, 4) + " " +
    Text.ZeroPad(t.hour, 2) + ":" + Text.ZeroPad(t.minute, 2) + ":" + Text.ZeroPad(t.second, 2)
  }

  /** `s` is `n` written with exactly `width` decimal digits. */
  predicate Padded(s: string, n: nat, width: nat) {
    |s| == width && Text.AllDigits(s) && Text.DigitsValue(s) == n
  }

  /** A number below 10^width is written with exactly `width` digits that
      read back as the number. */
  lemma PaddedField(n: nat, width: nat)
    requires width >= 1 && n < Text.Pow10(width)
    ensures Padded(Text.ZeroPad(n, width), n, width)
  {
    Text.NatToStringWidth(n, width);
    Text.ZeroPadValue(n, width);
  }

  /** The powers of ten the two- and four-digit date fields are padded to. */
  lemma Pow10Values()
    ensures Text.Pow10(2) == 100 && Text.Pow10(4) == 10000
  {
    assert Text.Pow10(1) == 10;
    assert Text.Pow10(3) == 1000;
  }

  /** An event date with a four-digit year is ten characters, "MM/DD/YYYY",
      and each part reads back as the month, the day and the year. */
  lemma EventDateFields(d: Date)
    requires d.month < 100 && d.day < 100 && d.year < 10000
    ensures var r := EventDate(d);
      |r| == 10 && r[2] == '/' && r[5] == '/' &&
      Padded(r[..2], d.month, 2) && Padded(r[3..5], d.day, 2) && Padded(r[6..], d.year, 4)
  {
    Pow10Values();
    var m, dd, y := Text.ZeroPad(d.month, 2), Text.ZeroPad(d.day, 2), Text.ZeroPad(d.year, 4);
    PaddedField(d.month, 2);
    PaddedField(d.day, 2);
    PaddedField(d.year, 4);
    var r := EventDate(d);
    assert r == m + "/" + dd + "/" + y;
    assert r[..2] == m && r[3..5] == dd && r[6..] == y;
  }

  /** A setting timestamp with a four-digit year is nineteen characters,
      "DD.MM.YYYY HH:MM:SS", and each part reads back as its value. */
  lemma SettingDateFields(t: DateTime)
    requires t.date.day < 100 && t.date.month < 100 && t.date.year < 10000
    requires t.hour < 100 && t.minute < 100 && t.second < 100
    ensures var r := SettingDate(t);
      |r| == 19 && r[2] == '.' && r[5] == '.' && r[10] == ' ' && r[13] == ':' && r[16] == ':' &&
      Padded(r[..2], t.date.day, 2) && Padded(r[3..5], t.date.month, 2) && Padded(r[6..10], t.date.year, 4) &&
      Padded(r[11..13], t.hour, 2) && Padded(r[14..16], t.minute, 2) && Padded(r[17..], t.second, 2)
  {
    Pow10Values();
    var dd, m, y := Text.ZeroPad(t.date.day, 2), Text.ZeroPad(t.date.month, 2), Text.ZeroPad(t.date.year, 4);
    var h, mi, se := Text.ZeroPad(t.hour, 2), Text.ZeroPad(t.minute, 2), Text.ZeroPad(t.second, 2);
    PaddedField(t.date.day, 2);
    PaddedField(t.date.month, 2);
    PaddedField(t.date.year, 4);
    PaddedField(t.hour, 2);
    PaddedField(t.minute, 2);
    PaddedField(t.second, 2);
    SixFields(dd, m, y, h, mi, se);
    assert SettingDate(t) == dd + "." + m + "." + y + " " + h + ":" + mi + ":" + se;
  }

  /** The slices of "DD.MM.YYYY HH:MM:SS" are its six fields. */
  lemma SixFields(dd: string, m: string, y: string, h: string, mi: string, se: string)
    requires |dd| == 2 && |m| == 2 && |y| == 4 && |h| == 2 && |mi| == 2 && |se| == 2
    ensures var r := dd + "." + m + "." + y + " " + h + ":" + mi + ":" + se;
      |r| == 19 && r[2] == '.' && r[5] == '.' && r[10] == ' ' && r[13] == ':' && r[16] == ':' &&
      r[..2] == dd && r[3..5] == m && r[6..10] == y && r[11..13] == h && r[14..16] == mi && r[17..] == se
  {
    var left := dd + "." + m + "." + y;
    var right := h + ":" + mi + ":" + se;
    var r := dd + "." + m + "." + y + " " + h + ":" + mi + ":" + se;
    assert r == left + " " + right;
    ThreeFields(dd, m, y, ".");
    ThreeFields(h, mi, se, ":");
    assert r[..2] == left[..2] && r[3..5] == left[3..5] && r[6..10] == left[6..];
    assert r[11..13] == right[..2] && r[14..16] == right[3..5] && r[17..] == right[6..];
  }

  /** Three fields, the first two two characters long, joined by a
      one-character separator sit at 0, 3 and 6. */
  lemma ThreeFields(a: string, b: string, c: string, sep: string)
    requires |a| == 2 && |b| == 2 && |sep| == 1
    ensures var r := a + sep + b + sep + c;
      |r| == 6 + |c| && r[2] == sep[0] && r[5] == sep[0] && r[..2] == a && r[3..5] == b && r[6..] == c
  {
  }

  // ---------------------------------------------------------------- field tuples

  /** `export_author`: abbreviation, full name, notes. */
  function ExportAuthor(a: Author): (r: seq<Field>)
    ensures |r| == 3 && Stringer(r[0]) == a.abbreviation
  {
    [TextField(a.abbreviation), OptionalText(a.fullName), OptionalText(a.notes)]
  }

  /** `export_event`: event id, name, date as MM/DD/YYYY, definition,
      annotation, suffix. */
  function ExportEvent(e: Event): (r: seq<Field>)
    ensures |r| == 6 && Stringer(r[2]) == EventDate(e.date)
  {
    [IntField(e.eventId), TextField(e.name), TextField(EventDate(e.date)),
     TextField(e.definition), TextField(e.annotation), TextField(e.suffix)]
  }

  /** `export_syllable`: name, type, "True" or "False". */
  function ExportSyllable(s: Syllable): (r: seq<Field>)
    ensures |r| == 3 && Stringer(r[2]) == (if s.allowed then "True" else "False")
  {
    [TextField(s.name), TextField(s.syllableType), TextField(Str(BoolField(s.allowed)))]
  }

  /** `export_setting`: timestamp as DD.MM.YYYY HH:MM:SS, database
      version, last word id, release. */
  function ExportSetting(s: Setting): (r: seq<Field>)
    ensures |r| == 4 && Stringer(r[0]) == SettingDate(s.date)
  {
    [TextField(SettingDate(s.date)), IntField(s.dbVersion), IntField(s.lastWordId), TextField(s.dbRelease)]
  }

  /** `export_type`: type, type_x, group, "True" or "False", description. */
  function ExportType(t: WordType): (r: seq<Field>)
    ensures |r| == 5 && Stringer(r[3]) == (if t.parentable then "True" else "False")
  {
    [TextField(t.typeName), TextField(t.typeX), TextField(t.group), TextField(Str(BoolField(t.parentable))),
     OptionalText(t.description)]
  }

  /** The twelve columns of a word line, given the converter's columns. */
  function WordFields(lw: LoadedWord, affixes: string, source: string, year: string, rank: string, usedIn: string): (r: seq<Field>)
    ensures |r| == 12
    ensures r[3] == TextField(affixes) && r[5] == TextField(source) && r[6] == TextField(year)
    ensures r[7] == TextField(rank) && r[10] == TextField(usedIn)
  {
    [IntField(lw.word.idOld), TextField(lw.kind.typeName), TextField(lw.kind.typeX),
     TextField(affixes), TextField(Stringer(OptionalText(lw.word.matchScore))),
     TextField(source), TextField(year), TextField(rank),
     TextField(Stringer(OptionalText(lw.word.origin))), TextField(Stringer(OptionalText(lw.word.originX))),
     TextField(usedIn), TextField(Stringer(OptionalInt(lw.word.tidOld)))]
  }

  /** `export_word`: old id, type, type_x, affixes, match, source, year,
      rank, origin, origin_x, used-in, old type id. */
  function ExportWord(lw: LoadedWord): (r: seq<Field>)
    ensures |r| == 12
    ensures r[3] == TextField(Affixes(lw)) && r[5] == TextField(Source(lw)) && r[6] == TextField(Year(lw))
    ensures r[7] == TextField(Rank(lw)) && r[10] == TextField(UsedIn(lw))
  {
    WordFields(lw, Affixes(lw), Source(lw), Year(lw), Rank(lw), UsedIn(lw))
  }

  /** `export_definition`: the source word's old id, position, usage, the
      grammar (slots then grammar code, without parentheses), body, an
      always empty field, case tags. */
  function ExportDefinition(d: Definition, source: Word): (r: seq<Field>)
    ensures |r| == 7 && Stringer(r[5]) == ""
    ensures var g := DefinitionModel.Grammar(d); Stringer(r[3]) == g[1..|g| - 1]
  {
    [IntField(source.idOld), IntField(d.position), OptionalText(d.usage),
     TextField(DefinitionModel.GrammarCore(d.slots, d.grammarCode)), TextField(d.body), TextField(""),
     OptionalText(d.caseTags)]
  }

  /** The name with "0" for each upper-case letter and "5" for every other
      character. */
  function CodeName(name: string): (r: string)
    ensures |r| == |name|
    ensures forall i :: 0 <= i < |name| ==> (r[i] == '0' <==> Text.IsUpper(name[i])) && r[i] in "05"
  {
    if name == [] then []
    else [if Text.IsUpper(name[0]) then '0' else '5'] + CodeName(name[1..])
  }

  /** `export_word_spell`: old id, name, lower-case name, code name, start
      event, end event (9999 when the word has none), an empty field. */
  function ExportWordSpell(w: Word): (r: seq<Field>)
    ensures |r| == 7 && Stringer(r[6]) == ""
    ensures Stringer(r[2]) == Text.Lower(w.name) && |Stringer(r[3])| == |w.name|
    ensures Stringer(r[3]) == CodeName(w.name)
    ensures r[0] == IntField(w.idOld) && Stringer(r[1]) == w.name && r[4] == IntField(w.eventStart)
    ensures w.eventEnd.None? ==> r[5] == IntField(9999)
    ensures w.eventEnd.Some? ==> r[5] == IntField(w.eventEnd.value)
  {
    [IntField(w.idOld), TextField(w.name), TextField(Text.Lower(w.name)), TextField(CodeName(w.name)),
     IntField(w.eventStart), IntField(if w.eventEnd.Some? then w.eventEnd.value else 9999), TextField("")]
  }

  // ---------------------------------------------------------------- export

  /** The bases of the exporter table, in the order it is searched. */
  const ExportOrder: seq<BaseClass> :=
    [BaseAuthor, BaseEvent, BaseType, BaseWordSpell, BaseWord, BaseDefinition, BaseSetting, BaseSyllable]

  /** `bases[i]` is the first of `bases` that `cls` is a subclass of. */
  predicate FirstAt(cls: EntityClass, bases: seq<BaseClass>, i: int) {
    0 <= i < |bases| && IsSubclass(cls, bases[i]) && forall j :: 0 <= j < i ==> !IsSubclass(cls, bases[j])
  }

  /** The first base in `bases` that `cls` is a subclass of. */
  function FirstMatch(cls: EntityClass, bases: seq<BaseClass>): (r: Option<BaseClass>)
    ensures r.None? <==> forall b :: b in bases ==> !IsSubclass(cls, b)
    ensures r.Some? ==> exists i :: FirstAt(cls, bases, i) && bases[i] == r.value
  {
    if bases == [] then None
    else if IsSubclass(cls, bases[0]) then
      assert FirstAt(cls, bases, 0);
      Some(bases[0])
    else
      var r := FirstMatch(cls, bases[1..]);
      assert forall b :: b in bases <==> b == bases[0] || b in bases[1..];
      assert r.Some? ==> exists i :: FirstAt(cls, bases, i) && bases[i] == r.value by {
        if r.Some? {
          var i :| FirstAt(cls, bases[1..], i) && bases[1..][i] == r.value;
          assert FirstAt(cls, bases, i + 1) by {
            forall j | 0 <= j < i + 1 ensures !IsSubclass(cls, bases[j]) {
              if j > 0 {
                assert bases[j] == bases[1..][j - 1];
              }
            }
          }
        }
      }
      r
  }

  /** Which base's exporter handles `cls`: every mapped class except keys
      has one, and a word spelling takes the spelling format although it is
      also a word. */
  lemma ExportDispatch(cls: EntityClass)
    ensures FirstMatch(cls, ExportOrder).None? <==> cls.Unrelated? || cls.base == BaseKey
    ensures cls.SubclassOf? && cls.base != BaseKey ==> FirstMatch(cls, ExportOrder) == Some(cls.base)
  {
    if cls.SubclassOf? && cls.base != BaseKey {
      assert cls.base in ExportOrder;
      var r := FirstMatch(cls, ExportOrder);
      var i :| FirstAt(cls, ExportOrder, i) && ExportOrder[i] == r.value;
      if cls.base == BaseWordSpell {
        assert ExportOrder[3] == BaseWordSpell;
      } else {
        var k :| 0 <= k < |ExportOrder| && ExportOrder[k] == cls.base;
        assert IsSubclass(cls, ExportOrder[k]);
      }
    }
  }

  /** The object handed to `export`: its class and the record with the
      attributes its exporter reads. */
  datatype Record =
    | AuthorRecord(author: Author)
    | EventRecord(event: Event)
    | TypeRecord(wordType: WordType)
    | WordRecord(loaded: LoadedWord)
    | DefinitionRecord(definition: Definition, sourceWord: Word)
    | SettingRecord(setting: Setting)
    | SyllableRecord(syllable: Syllable)
    | OtherRecord

  /** The field tuple of the exporter of `base` applied to `rec`; None when
      the record lacks the attributes that exporter reads. */
  function Fields(base: BaseClass, rec: Record): Option<seq<Field>> {
    match (base, rec)
    case (BaseAuthor, AuthorRecord(a)) => Some(ExportAuthor(a))
    case (BaseEvent, EventRecord(e)) => Some(ExportEvent(e))
    case (BaseType, TypeRecord(t)) => Some(ExportType(t))
    case (BaseWordSpell, WordRecord(lw)) => Some(ExportWordSpell(lw.word))
    case (BaseWord, WordRecord(lw)) => Some(ExportWord(lw))
    case (BaseDefinition, DefinitionRecord(d, w)) => Some(ExportDefinition(d, w))
    case (BaseSetting, SettingRecord(s)) => Some(ExportSetting(s))
    case (BaseSyllable, SyllableRecord(s)) => Some(ExportSyllable(s))
    case _ => None
  }

  function ClassName(cls: EntityClass): string {
    cls.name
  }

  /** `export(obj, separator)`: ValueError for a class with no exporter;
      otherwise the exporter's fields merged by the separator (an
      AttributeError when the object lacks an attribute it reads). */
  function Export(cls: EntityClass, rec: Record, separator: string): (r: Result<string>)
    ensures r.Failure? && r.error.ValueError? <==> FirstMatch(cls, ExportOrder).None?
    ensures r.Success? ==>
      exists items :: Fields(FirstMatch(cls, ExportOrder).value, rec) == Some(items) && r.value == MergeBy(items, separator)
  {
    match FirstMatch(cls, ExportOrder)
    case None => Failure(ValueError("Unsupported object type: " + ClassName(cls)))
    case Some(base) =>
      match Fields(base, rec)
      case None => Failure(AttributeError("object has no attribute the exporter reads"))
      case Some(items) => Success(MergeBy(items, separator))
  }
}
