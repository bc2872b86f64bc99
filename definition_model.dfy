/** `BaseDefinition`: its constructor defaults, its `grammar` string and its
    language filter. */
module DefinitionModel {
  import opened Common
  import opened Schema
  import Text
  import Filters

  /** `BaseDefinition(word_id, position, body, usage, grammar_code, slots,
      case_tags, language, notes)`: every argument is stored in its column;
      the optional ones default to None, which a caller expresses by passing
      None. The id is the one the database assigns on insert. */
  function NewDefinition(id: int, wordId: int, position: int, body: string,
                         usage: Option<string>, grammarCode: Option<string>, slots: Option<int>,
                         caseTags: Option<string>, language: Option<string>, notes: Option<string>): (d: Definition)
    ensures d.id == id && d.wordId == wordId && d.position == position && d.body == body
    ensures d.usage == usage && d.grammarCode == grammarCode && d.slots == slots
    ensures d.caseTags == caseTags && d.language == language && d.notes == notes
  {
    Definition(id, wordId, position, body, usage, grammarCode, slots, caseTags, language, notes)
  }

  /** With only the required arguments every optional column is empty and
      the grammar is "()". */
  lemma NewDefinitionDefaults(id: int, wordId: int, position: int, body: string)
    ensures NewDefinition(id, wordId, position, body, None, None, None, None, None, None).usage.None?
    ensures NewDefinition(id, wordId, position, body, None, None, None, None, None, None).language.None?
    ensures Grammar(NewDefinition(id, wordId, position, body, None, None, None, None, None, None)) == "()"
  {
  }

  /** The slots number and grammar code, each only when truthy
      (`f"{slots or ''}{grammar_code or ''}"`). */
  function GrammarCore(slots: Option<int>, grammarCode: Option<string>): string
  {
    (if TruthyInt(slots) then Text.IntToString(slots.value) else "") +
    (if TruthyText(grammarCode) then grammarCode.value else "")
  }

  /** `grammar`: the slots and grammar code in parentheses, e.g. "(4v)". */
  function Grammar(d: Definition): (r: string)
    ensures |r| >= 2 && r[0] == '(' && r[|r| - 1] == ')'
    ensures r[1..|r| - 1] == GrammarCore(d.slots, d.grammarCode)
  {
    "(" + GrammarCore(d.slots, d.grammarCode) + ")"
  }

  /** `grammar` is "()" exactly when neither slots nor grammar code is
      truthy; otherwise it shows what is there, slots first. */
  lemma GrammarEmpty(d: Definition)
    ensures Grammar(d) == "()" <==> !TruthyInt(d.slots) && !TruthyText(d.grammarCode)
    ensures TruthyInt(d.slots) ==> Text.IntToString(d.slots.value) <= Grammar(d)[1..]
    ensures TruthyText(d.grammarCode) ==> d.grammarCode.value <= Grammar(d)[|Grammar(d)| - 1 - |d.grammarCode.value|..]
  {
    var r := Grammar(d);
    if Grammar(d) == "()" {
      assert |GrammarCore(d.slots, d.grammarCode)| == 0;
    }
    if TruthyText(d.grammarCode) {
      var c := d.grammarCode.value;
      var pre := "(" + (if TruthyInt(d.slots) then Text.IntToString(d.slots.value) else "");
      assert r == pre + c + ")";
      assert r[|r| - 1 - |c|..] == c + ")";
    }
  }

  /** Definition 1 of the fixture (slots 4, code "v") has grammar "(4v)". */
  lemma GrammarExample()
    ensures Grammar(Definition(1, 6, 1, "", None, Some("v"), Some(4), Some("K-BPV"), None, None)) == "(4v)"
  {
  }

  /** `filter_language(language)`: no condition for a missing or empty
      language, otherwise the definition's language must equal it. */
  predicate FilterLanguage(language: Option<string>, d: Definition) {
    Filters.LanguageFilter(language, d.language)
  }
}
