/**
 * The `.jsx` variant of the glossary component (src/AcronymApp.jsx). Every
 * handler builds new arrays and records, so the component's four pieces of
 * React state are one value and each handler is a function from state to
 * state. Candidates keep every match of the pattern, trimmed, and are
 * edited by acronym key.
 */
module AppJsx {
  import opened Text
  import opened Lists
  import opened Scanner
  import opened Records

  /** Here `related` is free text. */
  type Card = Record<string>

  /** `initialAcronyms`. */
  function InitialAcronyms(): (r: seq<Card>)
    ensures |r| == 5
  {
    [ Record("NEM", "National Electricity Market", "Covers the east coast electricity grid.", "Electricity Market", "AEMO, AEMC, AER"),
      Record("AEMO", "Australian Energy Market Operator", "Operates the NEM and WEM.", "Energy Market", "NEM, AER"),
      Record("AEMC", "Australian Energy Market Commission", "Sets rules for the NEM.", "Regulatory", "NEM, AEMO"),
      Record("AER", "Australian Energy Regulator", "Regulates energy markets.", "Regulatory", "NEM, AEMO"),
      Record("WEM", "Wholesale Electricity Market", "Western Australia's electricity market.", "Electricity Market", "AEMO") ]
  }

  /** `acronymsList`, `search`, `textInput`, `autoAcronyms`. */
  datatype AppState = AppState(acronymsList: seq<Card>, search: string, textInput: string, autoAcronyms: seq<Card>)

  /** The state on first render. */
  function Init(): (st: AppState)
    ensures st.acronymsList == InitialAcronyms()
    ensures st.search == "" && st.textInput == "" && st.autoAcronyms == []
  {
    AppState(InitialAcronyms(), "", "", [])
  }

  /** `filtered`: the glossary cards the search box lets through, in list order. */
  function Filtered(st: AppState): (r: seq<Card>)
    ensures forall c :: c in r <==> c in st.acronymsList && IsHit(c, st.search)
  {
    Search(st.acronymsList, st.search)
  }

  /** The card built from one match: both text fields are the trimmed capture. */
  function CardOf(text: string, m: Match): (r: Card)
    requires m.Within(text)
    ensures r.acronym == m.Acronym(text) && |r.acronym| == m.tokenEnd - m.start
    ensures r.full == Trim(m.Captured(text)) && Trim(r.full) == r.full && r.description == r.full
    ensures r.category == ToReview && r.related == ""
  {
    var full := Trim(m.Captured(text));
    TrimIdempotent(m.Captured(text));
    Record(m.Acronym(text), full, full, ToReview, "")
  }

  /** The inner `extractAcronymsFromText`: one card per match, nothing filtered out. */
  function ExtractAcronymsFromText(text: string): (r: seq<Card>)
    ensures |r| == |Scan(text)|
    ensures forall k :: 0 <= k < |r| ==> r[k].acronym == Scan(text)[k].Acronym(text)
    ensures forall k :: 0 <= k < |r| ==> r[k].full == Trim(Scan(text)[k].Captured(text)) && r[k].description == r[k].full
  {
    var ms := Scan(text);
    seq(|ms|, k requires 0 <= k < |ms| => CardOf(text, ms[k]))
  }

  /** A trimmed capture is still a capture: trimming only removes characters. */
  lemma TrimKeepsCaptureText(t: string)
    requires IsCaptureText(t)
    ensures IsCaptureText(Trim(t))
  {
    var r := Trim(t);
    TrimChars(t);
    forall k | 0 <= k < |r| ensures r[k] != '.' && !IsLineTerminator(r[k]) {
      assert r[k] in r;
    }
  }

  /**
   * Every card: a 2-6 capital acronym, `full` and `description` equal, trimmed,
   * free of `.` and line terminators, category "To Review", related "".
   */
  lemma ExtractShape(text: string)
    ensures forall c :: c in ExtractAcronymsFromText(text) ==>
      && (exists m :: m in Scan(text) && c == CardOf(text, m))
      && IsAcronymWord(c.acronym)
      && c.full == c.description
      && Trim(c.full) == c.full
      && IsCaptureText(c.full)
      && c.category == ToReview
      && c.related == ""
  {
    var r := ExtractAcronymsFromText(text);
    var ms := Scan(text);
    ScanShape(text);
    forall k | 0 <= k < |r|
      ensures IsAcronymWord(r[k].acronym) && r[k].full == r[k].description && Trim(r[k].full) == r[k].full
      ensures IsCaptureText(r[k].full) && r[k].category == ToReview && r[k].related == ""
    {
      assert ms[k] in ms;
      TrimKeepsCaptureText(ms[k].Captured(text));
      TrimIdempotent(ms[k].Captured(text));
    }
  }

  /** A text that is one definition line yields one card: the acronym and the trimmed full form. */
  lemma ExtractDefinitionLine(text: string, e: nat, p: nat, q: nat)
    requires e < p < q <= |text|
    requires IsAcronymWord(text[..e])
    requires IsGapText(text[e..p])
    requires !IsSpace(text[p]) && !IsSeparator(text[p]) && IsCaptureText(text[p..q])
    requires q == |text| || (q + 1 == |text| && text[q] == '.')
    ensures ExtractAcronymsFromText(text) == [Record(text[..e], Trim(text[p..q]), Trim(text[p..q]), ToReview, "")]
  {
    DefinitionLineScan(text, e, p, q);
  }

  /** `handleExtract`: the candidates are replaced by the text's cards and the text box is cleared. */
  function HandleExtract(st: AppState): (r: AppState)
    ensures r.autoAcronyms == ExtractAcronymsFromText(st.textInput)
    ensures r.textInput == ""
    ensures r.acronymsList == st.acronymsList && r.search == st.search
  {
    st.(autoAcronyms := ExtractAcronymsFromText(st.textInput), textInput := "")
  }

  /** Because the text box is cleared, pressing Extract a second time clears the candidates. */
  lemma ExtractTwiceClears(st: AppState)
    ensures HandleExtract(HandleExtract(st)).autoAcronyms == []
  {
    assert Scan("") == [];
  }

  /**
   * `handleSave(item)`: the card is appended to the list even when its acronym
   * is already there, and every candidate with that acronym is dropped.
   */
  function HandleSave(st: AppState, item: Card): (r: AppState)
    ensures r.acronymsList == st.acronymsList + [item]
    ensures r.autoAcronyms == WithoutKey(st.autoAcronyms, item.acronym)
    ensures |r.autoAcronyms| == |st.autoAcronyms| - |WithKey(st.autoAcronyms, item.acronym)|
    ensures r.search == st.search && r.textInput == st.textInput
  {
    WithoutKeyCount(st.autoAcronyms, item.acronym);
    st.(acronymsList := st.acronymsList + [item], autoAcronyms := WithoutKey(st.autoAcronyms, item.acronym))
  }

  /** A saved card is found, last, by searching for its acronym. */
  lemma SaveThenSearch(st: AppState, item: Card)
    ensures var r := Filtered(HandleSave(st, item).(search := item.acronym)); r != [] && r[|r| - 1] == item
  {
    SearchFindsAppended(st.acronymsList, item);
  }

  /** The four text boxes of a candidate card. The acronym has no box. */
  datatype CardField = Full | Description | Category | Related

  function FieldOf(c: Card, f: CardField): string {
    match f
    case Full => c.full
    case Description => c.description
    case Category => c.category
    case Related => c.related
  }

  /** `{ ...a, [field]: value }`. */
  function WithField(c: Card, f: CardField, value: string): (r: Card)
    ensures r.acronym == c.acronym
    ensures FieldOf(r, f) == value
    ensures forall g :: g != f ==> FieldOf(r, g) == FieldOf(c, g)
  {
    match f
    case Full => c.(full := value)
    case Description => c.(description := value)
    case Category => c.(category := value)
    case Related => c.(related := value)
  }

  /**
   * The onChange updater of a candidate's `field` box on the card for `acronym`:
   * `prev.map(a => a.acronym === acronym ? { ...a, [field]: value } : a)`.
   */
  function HandleEdit(st: AppState, acronym: string, f: CardField, value: string): (r: AppState)
    ensures |r.autoAcronyms| == |st.autoAcronyms|
    ensures forall k :: 0 <= k < |r.autoAcronyms| ==> r.autoAcronyms[k].acronym == st.autoAcronyms[k].acronym
    ensures forall k :: 0 <= k < |r.autoAcronyms| && st.autoAcronyms[k].acronym == acronym ==>
      FieldOf(r.autoAcronyms[k], f) == value
    ensures forall k, g :: 0 <= k < |r.autoAcronyms| && (st.autoAcronyms[k].acronym != acronym || g != f) ==>
      FieldOf(r.autoAcronyms[k], g) == FieldOf(st.autoAcronyms[k], g)
    ensures r.acronymsList == st.acronymsList && r.search == st.search && r.textInput == st.textInput
  {
    var cs := st.autoAcronyms;
    st.(autoAcronyms := seq(|cs|, k requires 0 <= k < |cs| => if cs[k].acronym == acronym then WithField(cs[k], f, value) else cs[k]))
  }

  /** A card is its acronym and its four fields. */
  lemma CardExtensional(c: Card, d: Card)
    requires c.acronym == d.acronym
    requires forall g :: FieldOf(c, g) == FieldOf(d, g)
    ensures c == d
  {
    assert FieldOf(c, Full) == FieldOf(d, Full);
    assert FieldOf(c, Description) == FieldOf(d, Description);
    assert FieldOf(c, Category) == FieldOf(d, Category);
    assert FieldOf(c, Related) == FieldOf(d, Related);
  }

  /** Typing the same value again changes nothing. */
  lemma EditIdempotent(st: AppState, acronym: string, f: CardField, value: string)
    ensures HandleEdit(HandleEdit(st, acronym, f, value), acronym, f, value) == HandleEdit(st, acronym, f, value)
  {
    var once := HandleEdit(st, acronym, f, value);
    var twice := HandleEdit(once, acronym, f, value);
    forall k | 0 <= k < |twice.autoAcronyms| ensures twice.autoAcronyms[k] == once.autoAcronyms[k] {
      CardExtensional(twice.autoAcronyms[k], once.autoAcronyms[k]);
    }
  }

  /** Saving a card drops every candidate with its acronym, so earlier edits to those candidates leave no trace in the candidate list. */
  lemma {:induction false} EditThenSave(st: AppState, acronym: string, f: CardField, value: string, item: Card)
    requires item.acronym == acronym
    ensures HandleSave(HandleEdit(st, acronym, f, value), item) == HandleSave(st, item)
  {
    var edited := HandleEdit(st, acronym, f, value).autoAcronyms;
    WithoutEditedKey(st.autoAcronyms, edited, acronym);
  }

  /** Two candidate lists that agree on every card without the key agree once the key is dropped. */
  lemma {:induction false} WithoutEditedKey(xs: seq<Card>, ys: seq<Card>, key: string)
    requires |xs| == |ys|
    requires forall k :: 0 <= k < |xs| ==> ys[k].acronym == xs[k].acronym
    requires forall k :: 0 <= k < |xs| && xs[k].acronym != key ==> ys[k] == xs[k]
    ensures WithoutKey(xs, key) == WithoutKey(ys, key)
    decreases |xs|
  {
    if xs != [] {
      var xs', ys' := xs[1..], ys[1..];
      forall k | 0 <= k < |xs'|
        ensures ys'[k].acronym == xs'[k].acronym && (xs'[k].acronym != key ==> ys'[k] == xs'[k])
      {
        assert xs'[k] == xs[k + 1] && ys'[k] == ys[k + 1];
      }
      WithoutEditedKey(xs', ys', key);
      assert xs[0].acronym == ys[0].acronym;
    }
  }
}
