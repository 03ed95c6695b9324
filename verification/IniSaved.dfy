/** What a saved document looks like, line by line and in characters. */
module IniSaved {
  import opened IniText
  import opened IniPrint

  /** The nearest line before line i that starts with a bracket. */
  function Opened(lines: seq<string>, i: nat): string
    requires i <= |lines|
  {
    if i == 0 then ""
    else if lines[i - 1] != "" && lines[i - 1][0] == '[' then lines[i - 1]
    else Opened(lines, i - 1)
  }

  predicate HeaderAt(lines: seq<string>, i: nat, s: string) {
    i < |lines| && lines[i] == ['['] + s + [']']
  }

  /** Line i gives key k the value v, under the header of section s. */
  predicate PairAt(lines: seq<string>, i: nat, s: string, k: string, v: string) {
    i < |lines| && lines[i] == k + ['='] + v && Opened(lines, i) == ['['] + s + [']']
  }

  /** Line i is the header of a section that has keys, or a key and its value under the section's header. */
  ghost predicate Accounted(lines: seq<string>, i: nat, doc: Document) {
    || (exists s :: s in doc && doc[s] != map[] && HeaderAt(lines, i, s))
    || (exists s, k :: s in doc && k in doc[s] && PairAt(lines, i, s, k, doc[s][k]))
  }

  /** Each section that has keys has one header. */
  ghost predicate HeadersOnce(lines: seq<string>, doc: Document) {
    && (forall s :: s in doc && doc[s] != map[] ==> exists i: nat :: HeaderAt(lines, i, s))
    && forall s, i: nat, j: nat :: HeaderAt(lines, i, s) && HeaderAt(lines, j, s) ==> i == j
  }

  /** Each key has one line. */
  ghost predicate PairsOnce(lines: seq<string>, doc: Document) {
    && (forall s, k :: s in doc && k in doc[s] ==> exists i: nat :: PairAt(lines, i, s, k, doc[s][k]))
    && forall s, k, v, i: nat, j: nat :: PairAt(lines, i, s, k, v) && PairAt(lines, j, s, k, v) ==> i == j
  }

  /** The text consists of whole lines that are accounted for, one for each header and each key. */
  ghost predicate WrittenOut(text: string, doc: Document) {
    var lines := Split(text);
    && lines[|lines| - 1] == ""
    && (forall i: nat :: i < |lines| - 1 ==> Accounted(lines, i, doc))
    && HeadersOnce(lines, doc) && PairsOnce(lines, doc)
  }

  // ---- What each line is there for -------------------------------------------------

  datatype Item = Opening(section: string) | Pair(section: string, key: string)

  function KeyItems(s: string, keys: seq<string>): (items: seq<Item>)
    ensures |items| == |keys|
  {
    seq(|keys|, i requires 0 <= i < |keys| => Pair(s, keys[i]))
  }

  function EntryItems(doc: Document, e: Entry): seq<Item>
    requires e.name in doc
  {
    if doc[e.name] == map[] then [] else [Opening(e.name)] + KeyItems(e.name, e.keys)
  }

  function Items(doc: Document, order: seq<Entry>): seq<Item>
    requires Listed(order, doc)
  {
    if order == [] then [] else Items(doc, order[..|order| - 1]) + EntryItems(doc, order[|order| - 1])
  }

  /** Line i is item i's, and a key stands behind its header or another key of its section. */
  ghost predicate Renders(doc: Document, items: seq<Item>, raws: seq<string>, i: nat)
    requires i < |items| == |raws|
  {
    match items[i]
    case Opening(s) => s in doc && doc[s] != map[] && raws[i] == ['['] + s + [']']
    case Pair(s, k) =>
      s in doc && k in doc[s] && raws[i] == k + ['='] + doc[s][k] && i > 0 && items[i - 1].section == s
  }

  ghost predicate AllRender(doc: Document, items: seq<Item>, raws: seq<string>) {
    |items| == |raws| && forall i :: 0 <= i < |items| ==> Renders(doc, items, raws, i)
  }

  lemma {:induction false} KeyRawsAt(section: Section, keys: seq<string>, i: nat)
    requires Elements(keys) <= section.Keys && i < |keys|
    ensures |KeyRaws(section, keys)| == |keys| && keys[i] in section
    ensures KeyRaws(section, keys)[i] == keys[i] + ['='] + section[keys[i]]
  {
    var last := |keys| - 1;
    assert keys[last] in Elements(keys);
    if last > 0 {
      KeyRawsAt(section, keys[..last], if i < last then i else 0);
    }
  }

  lemma EntryRenders(doc: Document, e: Entry)
    requires e.name in doc && Elements(e.keys) <= doc[e.name].Keys
    ensures AllRender(doc, EntryItems(doc, e), EntryRaws(doc, e))
  {
    if doc[e.name] != map[] {
      var items, raws := EntryItems(doc, e), EntryRaws(doc, e);
      if e.keys != [] {
        KeyRawsAt(doc[e.name], e.keys, 0);
      }
      forall i | 0 <= i < |items|
        ensures |items| == |raws| && Renders(doc, items, raws, i)
      {
        if i > 0 {
          KeyRawsAt(doc[e.name], e.keys, i - 1);
        }
      }
    }
  }

  lemma BothRender(doc: Document, items1: seq<Item>, raws1: seq<string>, items2: seq<Item>, raws2: seq<string>)
    requires AllRender(doc, items1, raws1) && AllRender(doc, items2, raws2)
    ensures AllRender(doc, items1 + items2, raws1 + raws2)
  {
    var items, raws, n := items1 + items2, raws1 + raws2, |items1|;
    forall i | 0 <= i < |items|
      ensures Renders(doc, items, raws, i)
    {
      if i < n {
        assert Renders(doc, items1, raws1, i);
      } else {
        assert Renders(doc, items2, raws2, i - n);
      }
    }
  }

  lemma {:induction false} DocRenders(doc: Document, order: seq<Entry>)
    requires Listed(order, doc)
    ensures AllRender(doc, Items(doc, order), DocRaws(doc, order))
  {
    if order != [] {
      hide AllRender, EntryItems, EntryRaws;
      var front, e := order[..|order| - 1], order[|order| - 1];
      DocRenders(doc, front);
      EntryRenders(doc, e);
      BothRender(doc, Items(doc, front), DocRaws(doc, front), EntryItems(doc, e), EntryRaws(doc, e));
    } else {
      assert Items(doc, order) == [] && DocRaws(doc, order) == [];
    }
  }

  // ---- Each item once ---------------------------------------------------------------

  predicate Once(items: seq<Item>) {
    forall i, j :: 0 <= i < j < |items| ==> items[i] != items[j]
  }

  predicate Sane(order: seq<Entry>) {
    NoDuplicates(Names(order)) && forall e :: e in order ==> NoDuplicates(e.keys)
  }

  lemma {:induction false} ItemsOnce(doc: Document, order: seq<Entry>)
    requires Listed(order, doc) && Sane(order)
    ensures Once(Items(doc, order))
    ensures forall item :: item in Items(doc, order) ==> item.section in Names(order)
  {
    hide Names, Once, EntryItems, Sane, Listed;
    if order == [] {
      NoItems(doc, order);
    } else {
      var front, e := order[..|order| - 1], order[|order| - 1];
      FrontSane(order);
      FrontListed(order, doc);
      ItemsOnce(doc, front);
      EntryOnce(doc, e);
      OnceTogether(Items(doc, front), EntryItems(doc, e), Names(front), e.name);
    }
  }

  lemma NoItems(doc: Document, order: seq<Entry>)
    requires order == [] && Listed(order, doc)
    ensures Once(Items(doc, order)) && Items(doc, order) == []
  {
  }

  lemma FrontListed(order: seq<Entry>, doc: Document)
    requires order != [] && Listed(order, doc)
    ensures Listed(order[..|order| - 1], doc) && order[|order| - 1].name in doc
  {
    assert order[|order| - 1] in order;
  }

  lemma OnceTogether(items: seq<Item>, more: seq<Item>, names: seq<string>, name: string)
    requires Once(items) && Once(more) && name !in names
    requires forall item :: item in items ==> item.section in names
    requires forall item :: item in more ==> item.section == name
    ensures Once(items + more) && forall item :: item in items + more ==> item.section in names + [name]
  {
    forall i, j | 0 <= i < |items| && 0 <= j < |more|
      ensures items[i] != more[j]
    {
      assert items[i] in items && more[j] in more;
    }
  }

  lemma FrontSane(order: seq<Entry>)
    requires order != [] && Sane(order)
    ensures var front, e := order[..|order| - 1], order[|order| - 1];
            && Sane(front) && NoDuplicates(e.keys)
            && e.name !in Names(front) && Names(order) == Names(front) + [e.name]
  {
    var front := order[..|order| - 1];
    assert order[|order| - 1] in order;
    assert forall i {:trigger Names(front)[i]} :: 0 <= i < |front| ==>
      Names(front)[i] == Names(order)[i] != Names(order)[|order| - 1];
  }

  lemma EntryOnce(doc: Document, e: Entry)
    requires e.name in doc && NoDuplicates(e.keys)
    ensures Once(EntryItems(doc, e)) && forall item :: item in EntryItems(doc, e) ==> item.section == e.name
  {
  }

  lemma {:induction false} ItemsComplete(doc: Document, order: seq<Entry>, e: Entry, item: Item)
    requires Listed(order, doc) && e in order && item in EntryItems(doc, e)
    ensures item in Items(doc, order)
  {
    hide EntryItems;
    if e != order[|order| - 1] {
      assert e in order[..|order| - 1];
      ItemsComplete(doc, order[..|order| - 1], e, item);
    }
  }

  /** Every section with keys, and every key, has its item. */
  lemma AllListed(doc: Document, order: seq<Entry>, s: string)
    requires Enumerates(order, doc) && Listed(order, doc) && s in doc && doc[s] != map[]
    ensures Opening(s) in Items(doc, order)
    ensures forall k :: k in doc[s] ==> Pair(s, k) in Items(doc, order)
  {
    assert s in Elements(Names(order));
    var n :| 0 <= n < |order| && order[n].name == s;
    var e := order[n];
    assert e in order;
    ItemsComplete(doc, order, e, Opening(s));
    forall k | k in doc[s]
      ensures Pair(s, k) in Items(doc, order)
    {
      assert k in Elements(e.keys);
      var i :| 0 <= i < |e.keys| && e.keys[i] == k;
      assert KeyItems(s, e.keys)[i] == Pair(s, k);
      assert Pair(s, k) in EntryItems(doc, e);
      ItemsComplete(doc, order, e, Pair(s, k));
    }
  }

  // ---- Reading the items back from the lines ---------------------------------------------

  /** No key starts with a bracket or holds an `=`. */
  ghost predicate Distinguishable(doc: Document) {
    forall s, k :: s in doc && k in doc[s] ==> k != "" && k[0] != '[' && '=' !in k
  }

  lemma KeyTells(doc: Document, s: string, k: string)
    requires Distinguishable(doc) && s in doc && k in doc[s]
    ensures k != "" && k[0] != '[' && '=' !in k
  {
  }

  lemma ItemStarts(doc: Document, items: seq<Item>, raws: seq<string>, i: nat)
    requires AllRender(doc, items, raws) && Distinguishable(doc) && i < |items|
    ensures raws[i] != "" && (raws[i][0] == '[' <==> items[i].Opening?)
  {
    hide Distinguishable;
    assert Renders(doc, items, raws, i);
    match items[i]
    case Opening(s) => assert raws[i][0] == '[';
    case Pair(s, k) =>
      KeyTells(doc, s, k);
      assert raws[i][0] == k[0];
  }

  lemma {:induction false} OpenedIs(doc: Document, items: seq<Item>, raws: seq<string>, i: nat)
    requires AllRender(doc, items, raws) && Distinguishable(doc) && i < |items| && items[i].Pair?
    ensures Opened(raws, i) == ['['] + items[i].section + [']']
  {
    hide Distinguishable;
    assert Renders(doc, items, raws, i) && Renders(doc, items, raws, i - 1);
    ItemStarts(doc, items, raws, i - 1);
    if items[i - 1].Pair? {
      OpenedIs(doc, items, raws, i - 1);
    }
  }

  /** A line, and for a key line its header, tell the item. */
  lemma SameItem(doc: Document, items: seq<Item>, raws: seq<string>, i: nat, j: nat)
    requires AllRender(doc, items, raws) && Distinguishable(doc) && i < |items| && j < |items|
    requires raws[i] == raws[j] && (items[i].Pair? ==> Opened(raws, i) == Opened(raws, j))
    ensures items[i] == items[j]
  {
    hide Distinguishable;
    ItemStarts(doc, items, raws, i);
    ItemStarts(doc, items, raws, j);
    assert Renders(doc, items, raws, i) && Renders(doc, items, raws, j);
    var s, t := items[i].section, items[j].section;
    if items[i].Pair? {
      OpenedIs(doc, items, raws, i);
      OpenedIs(doc, items, raws, j);
      SameInside(s, t);
      KeyTells(doc, s, items[i].key);
      KeyTells(doc, t, items[j].key);
      KeysSame(items[i].key, doc[s][items[i].key], items[j].key, doc[t][items[j].key]);
    } else {
      SameInside(s, t);
    }
  }

  lemma SameInside(s: string, t: string)
    requires ['['] + s + [']'] == ['['] + t + [']']
    ensures s == t
  {
    assert (['['] + s + [']'])[1..|s| + 1] == s && (['['] + t + [']'])[1..|t| + 1] == t;
  }

  lemma KeysSame(j: string, w: string, k: string, v: string)
    requires '=' !in j && '=' !in k && j + ['='] + w == k + ['='] + v
    ensures j == k
  {
    var line := j + ['='] + w;
    FindFirst(line, '=', |j|);
    FindFirst(line, '=', |k|);
    assert line[..|j|] == j && line[..|k|] == k;
  }

  // ---- The theorem -------------------------------------------------------------------------

  /** An item's line, found among the lines. */
  lemma Found(doc: Document, items: seq<Item>, raws: seq<string>, item: Item) returns (i: nat)
    requires AllRender(doc, items, raws) && Distinguishable(doc) && item in items
    ensures i < |items| && items[i] == item
    ensures item.Opening? ==> HeaderAt(raws, i, item.section)
    ensures item.Pair? ==>
      && item.section in doc && item.key in doc[item.section]
      && PairAt(raws, i, item.section, item.key, doc[item.section][item.key])
  {
    i :| 0 <= i < |items| && items[i] == item;
    assert Renders(doc, items, raws, i);
    if item.Pair? {
      OpenedIs(doc, items, raws, i);
    }
  }

  lemma {:induction false} OpenedInFront(lines: seq<string>, more: seq<string>, i: nat)
    requires i <= |lines|
    ensures Opened(lines + more, i) == Opened(lines, i)
  {
    if i > 0 {
      OpenedInFront(lines, more, i - 1);
    }
  }

  lemma LastLineEmpty(raws: seq<string>, i: nat, s: string, k: string, v: string)
    ensures HeaderAt(raws + [""], i, s) <==> HeaderAt(raws, i, s)
    ensures PairAt(raws + [""], i, s, k, v) <==> PairAt(raws, i, s, k, v)
  {
    if i < |raws| {
      OpenedInFront(raws, [""], i);
    }
  }

  lemma PrintableDistinguishes(doc: Document)
    requires Printable(doc)
    ensures Distinguishable(doc)
  {
    forall s, k | s in doc && k in doc[s]
      ensures k != "" && k[0] != '[' && '=' !in k
    {
      assert PairOk(k, doc[s][k]);
    }
  }

  lemma LineAccounted(doc: Document, items: seq<Item>, raws: seq<string>, i: nat)
    requires AllRender(doc, items, raws) && Distinguishable(doc) && i < |raws|
    ensures Accounted(raws + [""], i, doc)
  {
    assert Renders(doc, items, raws, i);
    match items[i]
    case Opening(s) => LastLineEmpty(raws, i, s, "", "");
    case Pair(s, k) =>
      OpenedIs(doc, items, raws, i);
      LastLineEmpty(raws, i, s, k, doc[s][k]);
  }

  lemma HeadersFound(doc: Document, order: seq<Entry>, items: seq<Item>, raws: seq<string>)
    requires Enumerates(order, doc) && Listed(order, doc) && items == Items(doc, order) && Once(items)
    requires AllRender(doc, items, raws) && Distinguishable(doc)
    ensures HeadersOnce(raws + [""], doc)
  {
    hide HeaderAt, PairAt, Distinguishable, Items, Enumerates, AllRender, Once;
    forall s | s in doc && doc[s] != map[]
      ensures exists i: nat :: HeaderAt(raws + [""], i, s)
    {
      AllListed(doc, order, s);
      var i := Found(doc, items, raws, Opening(s));
      LastLineEmpty(raws, i, s, "", "");
    }
    forall s, i: nat, j: nat | HeaderAt(raws + [""], i, s) && HeaderAt(raws + [""], j, s)
      ensures i == j
    {
      LastLineEmpty(raws, i, s, "", "");
      LastLineEmpty(raws, j, s, "", "");
      OneHeader(doc, items, raws, i, j, s);
    }
  }

  lemma OneHeader(doc: Document, items: seq<Item>, raws: seq<string>, i: nat, j: nat, s: string)
    requires AllRender(doc, items, raws) && Distinguishable(doc) && Once(items)
    requires HeaderAt(raws, i, s) && HeaderAt(raws, j, s)
    ensures i == j
  {
    assert raws[i][0] == '[';
    ItemStarts(doc, items, raws, i);
    SameItem(doc, items, raws, i, j);
  }

  lemma PairsFound(doc: Document, order: seq<Entry>, items: seq<Item>, raws: seq<string>)
    requires Enumerates(order, doc) && Listed(order, doc) && items == Items(doc, order) && Once(items)
    requires AllRender(doc, items, raws) && Distinguishable(doc)
    ensures PairsOnce(raws + [""], doc)
  {
    hide HeaderAt, PairAt, Distinguishable, Items, Enumerates, AllRender, Once;
    forall s, k | s in doc && k in doc[s]
      ensures exists i: nat :: PairAt(raws + [""], i, s, k, doc[s][k])
    {
      AllListed(doc, order, s);
      var i := Found(doc, items, raws, Pair(s, k));
      LastLineEmpty(raws, i, s, k, doc[s][k]);
    }
    forall s, k, v, i: nat, j: nat | PairAt(raws + [""], i, s, k, v) && PairAt(raws + [""], j, s, k, v)
      ensures i == j
    {
      LastLineEmpty(raws, i, s, k, v);
      LastLineEmpty(raws, j, s, k, v);
      OnePair(doc, items, raws, i, j, s, k, v);
    }
  }

  lemma OnePair(doc: Document, items: seq<Item>, raws: seq<string>, i: nat, j: nat, s: string, k: string, v: string)
    requires AllRender(doc, items, raws) && Distinguishable(doc) && Once(items)
    requires PairAt(raws, i, s, k, v) && PairAt(raws, j, s, k, v)
    ensures i == j
  {
    SameItem(doc, items, raws, i, j);
  }

  /** A printable document is written out, whatever the iteration order. */
  lemma SavedIsWrittenOut(doc: Document, order: seq<Entry>)
    requires Printable(doc) && Enumerates(order, doc)
    ensures Listed(order, doc) && WrittenOut(Text(DocRaws(doc, order)), doc)
  {
    EnumeratesSanely(doc, order);
    PrintableDistinguishes(doc);
    hide Printable, Items, DocRaws, Text, AllRender, Once, Enumerates, Distinguishable, Meaning, Interpreted, Split;
    hide Accounted, HeadersOnce, PairsOnce, Sane, ListedExactly, Listed, WrittenOut;
    DocMeaning(doc, order);
    var raws, items := DocRaws(doc, order), Items(doc, order);
    SplitText(raws, "");
    BlankRead();
    assert Text(raws) + "" == Text(raws);
    DocRenders(doc, order);
    ItemsOnce(doc, order);
    LinesAccounted(doc, items, raws);
    HeadersFound(doc, order, items, raws);
    PairsFound(doc, order, items, raws);
    WrittenOutFrom(doc, Text(raws), raws);
  }

  lemma EnumeratesSanely(doc: Document, order: seq<Entry>)
    requires Enumerates(order, doc)
    ensures Sane(order) && ListedExactly(order, doc)
  {
  }

  lemma LinesAccounted(doc: Document, items: seq<Item>, raws: seq<string>)
    requires AllRender(doc, items, raws) && Distinguishable(doc)
    ensures forall i: nat :: i < |raws| ==> Accounted(raws + [""], i, doc)
  {
    hide Accounted, Distinguishable;
    forall i: nat | i < |raws|
      ensures Accounted(raws + [""], i, doc)
    {
      LineAccounted(doc, items, raws, i);
    }
  }

  lemma WrittenOutFrom(doc: Document, text: string, raws: seq<string>)
    requires Split(text) == raws + [""] && HeadersOnce(raws + [""], doc) && PairsOnce(raws + [""], doc)
    requires forall i: nat :: i < |raws| ==> Accounted(raws + [""], i, doc)
    ensures WrittenOut(text, doc)
  {
    hide Split, Accounted, HeadersOnce, PairsOnce;
  }
}
