/**
 * The `.js` variant of the glossary component (src/AcronymApp.js). The
 * glossary is a module-level array that `handleSave` reassigns, so it is an
 * object of its own (Glossary) shared with the component; the component's
 * React state is a second object (AcronymApp) whose handlers update its
 * fields. Candidates drop empty captures and acronyms already in the
 * glossary, keep the capture untrimmed, and are edited by index.
 */
module AppJs {
  import opened Text
  import opened Lists
  import opened Scanner
  import opened Records

  /** Here `related` is an array of acronym keys. */
  type Entry = Record<seq<string>>

  /** The seed value of the module-level `acronyms`. */
  function SeedAcronyms(): seq<Entry> {
    [ Record("AEMO", "Australian Energy Market Operator", "Operates the NEM, GBB, STTM, DWGM, WEM, GSH, and DAA.", "Market Operator", ["NEM", "GBB", "DWGM", "STTM", "WEM", "GSH", "DAA"]),
      Record("AER", "Australian Energy Regulator", "Regulates wholesale electricity and gas markets, and energy networks.", "Regulator", ["AEMC", "ACCC", "NEM"]),
      Record("AEMC", "Australian Energy Market Commission", "Makes and amends the rules for the NEM and provides market development advice.", "Regulator", ["AER", "AEMO", "NEM"]),
      Record("ACCC", "Australian Competition and Consumer Commission", "Ensures compliance with competition and consumer laws, including in energy markets.", "Regulator", ["AER", "AEMC"]),
      Record("NEM", "National Electricity Market", "Covers the east coast electricity grid.", "Electricity Market", ["AEMO", "AEMC", "AER"]),
      Record("GBB", "Gas Bulletin Board", "Information platform for gas market transparency.", "Gas Market", ["AEMO", "DWGM"]),
      Record("DWGM", "Declared Wholesale Gas Market", "Victoria\U{2019}s gas balancing market operated by AEMO.", "Gas Market", ["AEMO", "GBB"]),
      Record("STTM", "Short Term Trading Market", "Market for trading natural gas at defined hubs in Adelaide, Sydney, and Brisbane.", "Gas Market", ["AEMO", "GBB"]),
      Record("WEM", "Wholesale Electricity Market", "Electricity market in Western Australia operated by AEMO.", "Electricity Market", ["AEMO"]),
      Record("GSH", "Gas Supply Hub", "Trading platform for short-term gas supply.", "Gas Market", ["AEMO", "STTM"]),
      Record("DAA", "Day Ahead Auction", "Mechanism for auctioning spare pipeline capacity on a daily basis.", "Gas Market", ["AEMO", "GSH"]) ]
  }

  /** The record built from one match: the capture, untrimmed, is both full form and description. */
  function CandidateOf(text: string, m: Match): (r: Entry)
    requires m.Within(text)
    ensures r.acronym == m.Acronym(text) && |r.acronym| == m.tokenEnd - m.start
    ensures r.full == m.Captured(text) && r.description == r.full
    ensures r.category == ToReview && r.related == []
  {
    var full := m.Captured(text);
    Record(m.Acronym(text), full, full, ToReview, [])
  }

  /** `matches.map(...)`: one record per match, in text order. */
  function Candidates(text: string): (r: seq<Entry>)
    ensures |r| == |Scan(text)|
    ensures forall k :: 0 <= k < |r| ==> r[k].acronym == Scan(text)[k].Acronym(text)
    ensures forall k :: 0 <= k < |r| ==> r[k].full == Scan(text)[k].Captured(text) && r[k].description == r[k].full
  {
    var ms := Scan(text);
    seq(|ms|, k requires 0 <= k < |ms| => CandidateOf(text, ms[k]))
  }

  /** `item.full && item.acronym && !acronyms.some(existing => existing.acronym === item.acronym)`. */
  predicate IsKept(item: Entry, acronyms: seq<Entry>)
    ensures IsKept(item, acronyms) ==> item.full != "" && forall e :: e in acronyms ==> e.acronym != item.acronym
  {
    item.full != "" && item.acronym != "" && !HasKey(acronyms, item.acronym)
  }

  function KeptAgainst(acronyms: seq<Entry>): Entry -> bool {
    item => IsKept(item, acronyms)
  }

  /** `extractAcronymsFromText(text)`, reading the module-level `acronyms` as it is at call time. */
  function ExtractAcronymsFromText(text: string, acronyms: seq<Entry>): (r: seq<Entry>)
    ensures forall c :: c in r ==> c.full != "" && !HasKey(acronyms, c.acronym)
  {
    Filter(Candidates(text), KeptAgainst(acronyms))
  }

  /** The kept candidates are the matches' candidates in text order, with the dropped ones deleted. */
  lemma ExtractKeepsOrder(text: string, acronyms: seq<Entry>)
    ensures IsSubsequence(ExtractAcronymsFromText(text, acronyms), Candidates(text))
    ensures forall c ::
      multiset(ExtractAcronymsFromText(text, acronyms))[c] == if IsKept(c, acronyms) then multiset(Candidates(text))[c] else 0
  {
    FilterOrder(Candidates(text), KeptAgainst(acronyms));
    FilterCounts(Candidates(text), KeptAgainst(acronyms));
  }

  /**
   * A text that is one definition line yields the acronym with its full
   * form, untrimmed, unless the glossary already has that acronym.
   */
  lemma ExtractDefinitionLine(text: string, acronyms: seq<Entry>, e: nat, p: nat, q: nat)
    requires e < p < q <= |text|
    requires IsAcronymWord(text[..e])
    requires IsGapText(text[e..p])
    requires !IsSpace(text[p]) && !IsSeparator(text[p]) && IsCaptureText(text[p..q])
    requires q == |text| || (q + 1 == |text| && text[q] == '.')
    ensures ExtractAcronymsFromText(text, acronyms) ==
      if HasKey(acronyms, text[..e]) then [] else [Record(text[..e], text[p..q], text[p..q], ToReview, [])]
  {
    DefinitionLineScan(text, e, p, q);
    var c := Record(text[..e], text[p..q], text[p..q], ToReview, []);
    assert Candidates(text) == [c];
    assert Filter([c], KeptAgainst(acronyms)) == if KeptAgainst(acronyms)(c) then [c] else [];
  }

  /**
   * Every candidate comes from a match of the text and is a 2-6 capital
   * acronym not in the glossary, with a non-empty full form free of `.` and
   * line terminators, the same description, category "To Review" and no related keys.
   */
  lemma ExtractSound(text: string, acronyms: seq<Entry>)
    ensures forall c :: c in ExtractAcronymsFromText(text, acronyms) ==>
      && (exists m :: m in Scan(text) && c == CandidateOf(text, m))
      && IsAcronymWord(c.acronym)
      && !HasKey(acronyms, c.acronym)
      && c.full != ""
      && IsCaptureText(c.full)
      && c.description == c.full
      && c.category == ToReview
      && c.related == []
  {
    var ms := Scan(text);
    var all := Candidates(text);
    ScanShape(text);
    forall c | c in ExtractAcronymsFromText(text, acronyms)
      ensures exists m :: m in ms && c == CandidateOf(text, m)
      ensures IsAcronymWord(c.acronym) && IsCaptureText(c.full)
      ensures c.description == c.full && c.category == ToReview && c.related == []
    {
      var k :| 0 <= k < |all| && all[k] == c;
      assert ms[k] in ms;
    }
  }

  /** Every match with a non-empty capture and an acronym not in the glossary yields a candidate. */
  lemma ExtractComplete(text: string, acronyms: seq<Entry>, m: Match)
    requires m in Scan(text)
    requires m.Captured(text) != "" && !HasKey(acronyms, m.Acronym(text))
    ensures CandidateOf(text, m) in ExtractAcronymsFromText(text, acronyms)
  {
    var ms := Scan(text);
    var c := CandidateOf(text, m);
    assert c in Candidates(text) by {
      var k :| 0 <= k < |ms| && ms[k] == m;
      assert Candidates(text)[k] == c;
    }
    assert KeptAgainst(acronyms)(c);
  }

  /** Once a record is in the glossary its acronym is never extracted again: extraction drops exactly that key. */
  lemma ExtractAfterSave(text: string, acronyms: seq<Entry>, item: Entry)
    ensures ExtractAcronymsFromText(text, acronyms + [item])
         == WithoutKey(ExtractAcronymsFromText(text, acronyms), item.acronym)
  {
    forall key ensures HasKey(acronyms + [item], key) == (HasKey(acronyms, key) || item.acronym == key) {
      if HasKey(acronyms, key) {
        var i :| 0 <= i < |acronyms| && acronyms[i].acronym == key;
        assert (acronyms + [item])[i] == acronyms[i];
      }
      if item.acronym == key {
        assert (acronyms + [item])[|acronyms|] == item;
      }
    }
    FilterFilter(Candidates(text), KeptAgainst(acronyms), KeyIsNot(item.acronym), KeptAgainst(acronyms + [item]));
  }

  /** The five text boxes of a candidate card, in the order `handleEditChange` receives them as `key`. */
  datatype Field = Acronym | Full | Description | Category | Related

  /** `pieces.map(s => s.trim())`. */
  function TrimAll(pieces: seq<string>): (r: seq<string>)
    ensures |r| == |pieces|
    ensures forall k :: 0 <= k < |r| ==> r[k] == Trim(pieces[k])
    decreases |pieces|
  {
    if pieces == [] then []
    else
      var rest := TrimAll(pieces[1..]);
      var r := [Trim(pieces[0])] + rest;
      assert forall k :: 1 <= k < |r| ==> r[k] == rest[k - 1] && pieces[k] == pieces[1..][k - 1];
      r
  }

  /** The `related` box: `value.split(",").map(s => s.trim())`. */
  function ParseRelated(input: string): (r: seq<string>)
    ensures |r| == |Split(input, ',')| >= 1
    ensures forall k :: 0 <= k < |r| ==> r[k] == Trim(Split(input, ',')[k])
    ensures forall k :: 0 <= k < |r| ==> ',' !in r[k] && Trim(r[k]) == r[k]
  {
    TrimAllClean(Split(input, ','));
    TrimAll(Split(input, ','))
  }

  /** Trimmed comma-free pieces stay comma-free and are trimmed. */
  lemma {:induction false} TrimAllClean(pieces: seq<string>)
    requires forall k :: 0 <= k < |pieces| ==> ',' !in pieces[k]
    ensures forall k :: 0 <= k < |pieces| ==> ',' !in TrimAll(pieces)[k] && Trim(TrimAll(pieces)[k]) == TrimAll(pieces)[k]
    decreases |pieces|
  {
    if pieces != [] {
      var r := TrimAll(pieces);
      var tail := TrimAll(pieces[1..]);
      assert r == [Trim(pieces[0])] + tail;
      TrimAllClean(pieces[1..]);
      TrimIdempotent(pieces[0]);
      TrimKeepsOut(',', pieces[0]);
      forall k | 1 <= k < |r| ensures r[k] == tail[k - 1] {
      }
    }
  }

  /**
   * What the box shows, `related.join(", ")`, parses back to the same keys
   * when there is at least one key and each is trimmed and comma-free.
   */
  lemma RelatedRoundTrip(xs: seq<string>)
    requires xs != []
    requires forall k :: 0 <= k < |xs| ==> ',' !in xs[k] && Trim(xs[k]) == xs[k]
    ensures ParseRelated(Join(xs, ", ")) == xs
  {
    SplitCommaJoin(xs);
    TrimSpacedPieces(Split(Join(xs, ", "), ','), xs);
  }

  /**
   * A fresh candidate has `related: []`: its box shows the empty string,
   * which parses back to one empty key, not to no keys.
   */
  lemma RelatedOfEmpty()
    ensures Join([], ", ") == "" && ParseRelated(Join([], ", ")) == [""]
  {
    assert Split("", ',') == [""];
    assert Trim("") == "";
  }

  /** Trimming the first key and the later keys after one space each gives back the trimmed keys. */
  lemma TrimSpacedPieces(p: seq<string>, xs: seq<string>)
    requires |p| == |xs| && |xs| > 0 && p[0] == xs[0]
    requires forall k :: 1 <= k < |xs| ==> p[k] == [' '] + xs[k]
    requires forall k :: 0 <= k < |xs| ==> Trim(xs[k]) == xs[k]
    ensures TrimAll(p) == xs
  {
    var r := TrimAll(p);
    forall k | 0 <= k < |xs| ensures r[k] == xs[k] {
      if k > 0 {
        TrimSkipsLeadingSpace(' ', xs[k]);
      }
    }
  }

  /** The comma-pieces of `xs.join(", ")`: the first key, then each later key after one space. */
  lemma {:induction false} SplitCommaJoin(xs: seq<string>)
    requires xs != []
    requires forall k :: 0 <= k < |xs| ==> ',' !in xs[k]
    ensures var p := Split(Join(xs, ", "), ',');
      |p| == |xs| && p[0] == xs[0] && forall k :: 1 <= k < |xs| ==> p[k] == [' '] + xs[k]
    decreases |xs|
  {
    if |xs| == 1 {
      SplitNoSep(xs[0], ',');
    } else {
      var tail := Join(xs[1..], ", ");
      var rest := Split(tail, ',');
      assert Join(xs, ", ") == xs[0] + ", " + tail;
      SplitAfterComma(xs[0], tail);
      SplitCommaJoin(xs[1..]);
      var p := Split(Join(xs, ", "), ',');
      forall k | 2 <= k < |xs| ensures p[k] == [' '] + xs[k] {
        assert p[k] == rest[k - 1];
        assert xs[1..][k - 1] == xs[k];
      }
    }
  }

  /** The pieces of `head + ", " + tail`: the head, then the tail's pieces with a space glued to the first. */
  lemma SplitAfterComma(head: string, tail: string)
    requires ',' !in head
    ensures var rest := Split(tail, ',');
      Split(head + ", " + tail, ',') == [head] + [[' '] + rest[0]] + rest[1..]
  {
    assert head + ", " + tail == head + [','] + ([' '] + tail);
    SplitAfterPiece(head, ',', [' '] + tail);
    assert ([' '] + tail)[1..] == tail;
  }

  /** The record after `updated[index][key] = value` for the box `key`. */
  function WithField(e: Entry, key: Field, input: string): (r: Entry)
    ensures r.acronym == if key == Acronym then input else e.acronym
    ensures r.full == if key == Full then input else e.full
    ensures r.description == if key == Description then input else e.description
    ensures r.category == if key == Category then input else e.category
    ensures r.related == if key == Related then ParseRelated(input) else e.related
  {
    match key
    case Acronym => e.(acronym := input)
    case Full => e.(full := input)
    case Description => e.(description := input)
    case Category => e.(category := input)
    case Related => e.(related := ParseRelated(input))
  }

  /**
   * The module-level `let acronyms`, shared by every render of the
   * component. The program creates it holding
   * SeedAcronyms(); the constructor takes the initial list as a parameter.
   */
  class Glossary {
    var acronyms: seq<Entry>

    constructor (seed: seq<Entry>)
      ensures acronyms == seed
    {
      acronyms := seed;
    }
  }

  /** The component's state (`search`, `textInput`, `autoAcronyms`) and its handlers. */
  class AcronymApp {
    const glossary: Glossary
    var search: string
    var textInput: string
    var autoAcronyms: seq<Entry>

    constructor (glossary: Glossary)
      ensures this.glossary == glossary
      ensures search == "" && textInput == "" && autoAcronyms == []
    {
      this.glossary := glossary;
      search := "";
      textInput := "";
      autoAcronyms := [];
    }

    /** `filtered`: the glossary records the search box lets through, in glossary order. */
    function Filtered(): (r: seq<Entry>)
      reads this, glossary
      ensures forall e :: e in r <==> e in glossary.acronyms && IsHit(e, search)
    {
      Search(glossary.acronyms, search)
    }

    /** `handleExtract`: the candidates are replaced; the text box keeps its text. */
    method HandleExtract()
      modifies this
      ensures autoAcronyms == ExtractAcronymsFromText(textInput, glossary.acronyms)
      ensures forall c :: c in autoAcronyms ==> c.full != "" && !HasKey(glossary.acronyms, c.acronym)
      ensures search == old(search) && textInput == old(textInput)
    {
      autoAcronyms := ExtractAcronymsFromText(textInput, glossary.acronyms);
    }

    /** `handleSave(item)`: the glossary gains the item at its end; every candidate with its acronym goes. */
    method HandleSave(item: Entry)
      modifies this, glossary
      ensures glossary.acronyms == old(glossary.acronyms) + [item]
      ensures autoAcronyms == WithoutKey(old(autoAcronyms), item.acronym)
      ensures |autoAcronyms| == |old(autoAcronyms)| - |WithKey(old(autoAcronyms), item.acronym)|
      ensures search == old(search) && textInput == old(textInput)
    {
      glossary.acronyms := glossary.acronyms + [item];
      WithoutKeyCount(autoAcronyms, item.acronym);
      autoAcronyms := WithoutKey(autoAcronyms, item.acronym);
    }

    /** `handleEditChange(index, key, value)` as fired by the `key` box of card `index`. */
    method HandleEditChange(index: nat, key: Field, input: string)
      requires index < |autoAcronyms|
      modifies this
      ensures |autoAcronyms| == |old(autoAcronyms)|
      ensures autoAcronyms[index] == WithField(old(autoAcronyms)[index], key, input)
      ensures forall k :: 0 <= k < |autoAcronyms| && k != index ==> autoAcronyms[k] == old(autoAcronyms)[k]
      ensures search == old(search) && textInput == old(textInput)
    {
      var updated := autoAcronyms;
      updated := updated[index := WithField(updated[index], key, input)];
      autoAcronyms := updated;
    }
  }
}
