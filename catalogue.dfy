/**
 * The catalogue of a fetched collection: a text listing with one tab-indented
 * line per record, showing its `id`, `name` and `text` fields.  A record is a
 * dictionary whose values are already in their `str()` form.
 */
module Catalogue {

  /** A record of the collection: field name to its printed value. */
  type Record = map<string, string>

  /** The fields a catalogue line shows, in this order. */
  const Properties: seq<string> := ["id", "name", "text"]

  /** The text for field `p`: its value and one space when `item` has it, nothing otherwise. */
  function Shown(item: Record, p: string): string {
    if p in item then item[p] + " " else ""
  }

  /** The text for the fields of `props`, in order. */
  function FieldsText(item: Record, props: seq<string>): string {
    if props == [] then ""
    else FieldsText(item, props[..|props| - 1]) + Shown(item, props[|props| - 1])
  }

  /** One line of the catalogue: a tab, the fields, a newline. */
  function ItemLine(item: Record): string {
    "\t" + FieldsText(item, Properties) + "\n"
  }

  /** The lines of all records, in order. */
  function Lines(items: seq<Record>): string {
    if items == [] then "" else Lines(items[..|items| - 1]) + ItemLine(items[|items| - 1])
  }

  /** The whole catalogue: the introduction, the lines, and one more newline. */
  function CatalogueText(intro: string, items: seq<Record>): string {
    intro + Lines(items) + "\n"
  }

  /** The collection wrapper; `intro` and `collection` are set when it is built. */
  class SsDict {
    var intro: string
    var collection: seq<Record>

    constructor (intro: string, collection: seq<Record>)
      ensures this.intro == intro && this.collection == collection
    {
      this.intro := intro;
      this.collection := collection;
    }

    /** `getCatalogue`: builds the listing by appending to a string; changes nothing. */
    method GetCatalogue() returns (catalogue: string)
      ensures catalogue == CatalogueText(intro, collection)
    {
      catalogue := intro;
      var i := 0;
      while i < |collection|
        invariant 0 <= i <= |collection|
        invariant catalogue == intro + Lines(collection[..i])
      {
        var item := collection[i];
        ghost var done := catalogue;
        catalogue := catalogue + "\t";
        var j := 0;
        while j < |Properties|
          invariant 0 <= j <= |Properties|
          invariant catalogue == done + "\t" + FieldsText(item, Properties[..j])
        {
          var prop := Properties[j];
          if prop in item {
            catalogue := catalogue + (item[prop] + " ");
          }
          assert Properties[..j + 1] == Properties[..j] + [prop];
          FieldsTextOfNext(item, Properties[..j], prop);
          j := j + 1;
        }
        assert Properties[..j] == Properties;
        catalogue := catalogue + "\n";
        assert catalogue == done + ItemLine(item);
        assert collection[..i + 1] == collection[..i] + [item];
        LinesOfNext(collection[..i], item);
        i := i + 1;
      }
      assert collection[..i] == collection;
      catalogue := catalogue + "\n";
    }
  }

  // ---------------------------------------------------------------------------
  // Lemmas

  /** The catalogue begins with the introduction and ends with the lines and one more newline. */
  lemma CatalogueFrame(intro: string, items: seq<Record>)
    ensures var c := CatalogueText(intro, items);
      |c| == |intro| + |Lines(items)| + 1 &&
      c[..|intro|] == intro && c[|intro|..|c| - 1] == Lines(items) && c[|c| - 1] == '\n'
    ensures items != [] ==> var c := CatalogueText(intro, items); c[|c| - 2] == '\n'
  {
    var c := CatalogueText(intro, items);
    assert c == intro + Lines(items) + "\n";
    if items != [] {
      var last := ItemLine(items[|items| - 1]);
      assert Lines(items)[|Lines(items)| - 1] == last[|last| - 1];
    }
  }

  /** The lines of two collections one after the other are the lines of each, in order. */
  lemma {:induction false} LinesAppend(a: seq<Record>, b: seq<Record>)
    ensures Lines(a + b) == Lines(a) + Lines(b)
  {
    if b == [] {
      assert a + b == a;
    } else {
      var b' := b[..|b| - 1];
      assert (a + b)[..|a + b| - 1] == a + b';
      assert (a + b)[|a + b| - 1] == b[|b| - 1];
      LinesAppend(a, b');
    }
  }

  /** A record's line sits between the lines of the records before it and those after it. */
  lemma LineBetween(before: seq<Record>, item: Record, after: seq<Record>)
    ensures Lines(before + [item] + after) == Lines(before) + ItemLine(item) + Lines(after)
  {
    LinesAppend(before + [item], after);
    LinesOfNext(before, item);
  }

  lemma LinesOfNext(items: seq<Record>, item: Record)
    ensures Lines(items + [item]) == Lines(items) + ItemLine(item)
  {
    var next := items + [item];
    assert next[..|next| - 1] == items;
  }

  /** The number of occurrences of `c` in `s`. */
  function Count(c: char, s: string): nat {
    if s == [] then 0 else Count(c, s[..|s| - 1]) + (if s[|s| - 1] == c then 1 else 0)
  }

  lemma {:induction false} CountAppend(c: char, s: string, t: string)
    ensures Count(c, s + t) == Count(c, s) + Count(c, t)
  {
    if t != [] {
      assert (s + t)[..|s + t| - 1] == s + t[..|t| - 1];
      CountAppend(c, s, t[..|t| - 1]);
    } else {
      assert s + t == s;
    }
  }

  /** No shown field of the record holds a newline. */
  predicate SingleLineFields(item: Record) {
    forall p :: p in Properties && p in item ==> '\n' !in item[p]
  }

  lemma {:induction false} FieldsTextHasNoNewline(item: Record, props: seq<string>)
    requires forall p :: p in props && p in item ==> '\n' !in item[p]
    ensures Count('\n', FieldsText(item, props)) == 0
  {
    if props != [] {
      var p := props[|props| - 1];
      var init := props[..|props| - 1];
      assert forall q :: q in init ==> q in props;
      FieldsTextHasNoNewline(item, init);
      CountAppend('\n', FieldsText(item, init), Shown(item, p));
      if p in item {
        CountAppend('\n', item[p], " ");
        NoOccurrence('\n', item[p]);
      }
    }
  }

  lemma {:induction false} NoOccurrence(c: char, s: string)
    requires c !in s
    ensures Count(c, s) == 0
  {
    if s != [] {
      assert forall i :: 0 <= i < |s| - 1 ==> s[..|s| - 1][i] == s[i];
      NoOccurrence(c, s[..|s| - 1]);
    }
  }

  /** A line begins with a tab, ends with a newline and, when no field holds one, has no other. */
  lemma ItemLineShape(item: Record)
    ensures var line := ItemLine(item); |line| >= 2 && line[0] == '\t' && line[|line| - 1] == '\n'
    ensures SingleLineFields(item) ==> Count('\n', ItemLine(item)) == 1
  {
    if SingleLineFields(item) {
      FieldsTextHasNoNewline(item, Properties);
      CountAppend('\n', "\t", FieldsText(item, Properties));
      CountAppend('\n', "\t" + FieldsText(item, Properties), "\n");
    }
  }

  /** One line per record: with single-line fields, the lines hold exactly one newline per record. */
  lemma {:induction false} OneLinePerItem(items: seq<Record>)
    requires forall i :: 0 <= i < |items| ==> SingleLineFields(items[i])
    ensures Count('\n', Lines(items)) == |items|
  {
    if items != [] {
      var init := items[..|items| - 1];
      OneLinePerItem(init);
      ItemLineShape(items[|items| - 1]);
      CountAppend('\n', Lines(init), ItemLine(items[|items| - 1]));
    }
  }

  /** The shown fields, in the order `id`, `name`, `text`, each only when present. */
  lemma ItemLineFields(item: Record)
    ensures ItemLine(item) ==
              "\t" +
              (if "id" in item then item["id"] + " " else "") +
              (if "name" in item then item["name"] + " " else "") +
              (if "text" in item then item["text"] + " " else "") +
              "\n"
  {
    var none: seq<string> := [];
    FieldsTextOfNext(item, none, "id");
    FieldsTextOfNext(item, none + ["id"], "name");
    FieldsTextOfNext(item, none + ["id"] + ["name"], "text");
    assert none + ["id"] + ["name"] + ["text"] == Properties;
  }

  lemma FieldsTextOfNext(item: Record, props: seq<string>, p: string)
    ensures FieldsText(item, props + [p]) == FieldsText(item, props) + Shown(item, p)
  {
    var next := props + [p];
    assert next[..|next| - 1] == props;
  }

  /** Fields other than `id`, `name` and `text` do not affect a record's line. */
  lemma ItemLineIgnoresOtherFields(item: Record, other: Record)
    requires forall p :: p in Properties ==> (p in item <==> p in other)
    requires forall p :: p in Properties && p in item ==> item[p] == other[p]
    ensures ItemLine(item) == ItemLine(other)
  {
    ItemLineFields(item);
    ItemLineFields(other);
  }
}
