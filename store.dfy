/**
 * The page store `globalVarsList` of src/index.js as a value: page index to
 * variable name to record, with the two-phase lookup of `lookupVar` and the
 * updates made by `setMarkedVariable` and by the start of `preprocess`.
 */
module Store {
  import opened Options

  /** `{content, resolved, external}`; an absent `external` reads as false. */
  datatype Entry = Entry(content: string, resolved: bool, external: bool)

  type Page = map<string, Entry>
  type Pages = map<int, Page>

  /** `globalVarsList[p]?.[name] !== undefined` */
  predicate Holds(pages: Pages, p: int, name: string) {
    p in pages && name in pages[p]
  }

  /** One of `lookupVar`'s loops: pages `index`, `index - 1`, ..., 0, first hit wins. */
  function WalkDown(pages: Pages, name: string, index: int): Option<Entry>
    decreases if index < 0 then 0 else index + 1
  {
    if index < 0 then None
    else if Holds(pages, index, name) then Some(pages[index][name])
    else WalkDown(pages, name, index - 1)
  }

  /**
   * Where the hoisting walk starts: `Object.keys(globalVarsList).length`,
   * the number of pages the store has, not the highest page index.
   */
  function HoistStart(pages: Pages): int {
    |pages.Keys|
  }

  /** `lookupVar(name, index)`: the backward walk, then the hoisting walk. */
  function LookupSpec(pages: Pages, name: string, index: int): Option<Entry> {
    match WalkDown(pages, name, index)
    case Some(e) => Some(e)
    case None => WalkDown(pages, name, HoistStart(pages))
  }

  /**
   * WalkDown finds the record of the highest page at or below `index` that
   * holds the name, and finds nothing exactly when no such page exists.
   */
  lemma {:induction false} WalkDownFindsHighest(pages: Pages, name: string, index: int)
    ensures WalkDown(pages, name, index).None? <==> forall p :: 0 <= p <= index ==> !Holds(pages, p, name)
    ensures WalkDown(pages, name, index).Some? ==>
      exists p :: 0 <= p <= index && Holds(pages, p, name) && WalkDown(pages, name, index).value == pages[p][name]
        && forall q :: p < q <= index ==> !Holds(pages, q, name)
    decreases if index < 0 then 0 else index + 1
  {
    if index >= 0 && !Holds(pages, index, name) {
      WalkDownFindsHighest(pages, name, index - 1);
      if WalkDown(pages, name, index - 1).Some? {
        var p :| 0 <= p <= index - 1 && Holds(pages, p, name) && WalkDown(pages, name, index - 1).value == pages[p][name]
          && forall q :: p < q <= index - 1 ==> !Holds(pages, q, name);
        assert forall q :: p < q <= index ==> !Holds(pages, q, name);
      }
    } else if index >= 0 {
      assert forall q :: index < q <= index ==> !Holds(pages, q, name);
    }
  }

  /**
   * The lookup returns the record of the highest page `p <= index` holding the
   * name; only when there is none does it search pages HoistStart down to 0;
   * it finds nothing exactly when no page in either range holds the name.
   */
  lemma LookupOrder(pages: Pages, name: string, index: int)
    ensures (exists p :: 0 <= p <= index && Holds(pages, p, name)) ==>
      LookupSpec(pages, name, index) == WalkDown(pages, name, index)
    ensures (forall p :: 0 <= p <= index ==> !Holds(pages, p, name)) ==>
      LookupSpec(pages, name, index) == WalkDown(pages, name, HoistStart(pages))
    ensures LookupSpec(pages, name, index).None? <==>
      forall p :: 0 <= p <= (if index < HoistStart(pages) then HoistStart(pages) else index) ==> !Holds(pages, p, name)
  {
    WalkDownFindsHighest(pages, name, index);
    WalkDownFindsHighest(pages, name, HoistStart(pages));
  }

  /** A page that is not in the store reads as empty. */
  function PageOf(pages: Pages, p: int): Page {
    if p in pages then pages[p] else map[]
  }

  /**
   * The start of `preprocess`: page `p` keeps only its external records, each
   * with the external flag cleared; the page exists afterwards.
   */
  function ResetPage(pages: Pages, p: int): (r: Pages)
    ensures r.Keys == pages.Keys + {p}
    ensures forall q :: q in pages && q != p ==> r[q] == pages[q]
    ensures forall n :: n in r[p] <==> n in PageOf(pages, p) && PageOf(pages, p)[n].external
    ensures forall n :: n in r[p] ==> r[p][n] == PageOf(pages, p)[n].(external := false)
  {
    var old_ := PageOf(pages, p);
    pages[p := map n | n in old_ && old_[n].external :: old_[n].(external := false)]
  }

  /** An injected record survives one reset of its page and no more. */
  lemma ExternalSurvivesOneReset(pages: Pages, p: int)
    ensures ResetPage(ResetPage(pages, p), p)[p] == map[]
  {
    var once := ResetPage(pages, p);
    var twice := ResetPage(once, p);
    assert forall n :: n !in twice[p];
  }

  /** `setMarkedVariable(name, content, page)`. */
  function SetExternal(pages: Pages, name: string, content: string, page: int): (r: Pages)
    ensures page < 0 ==> r == pages
    ensures page >= 0 ==> r.Keys == pages.Keys + {page}
    ensures page >= 0 ==> r[page] == PageOf(pages, page)[name := Entry(content, true, true)]
    ensures page >= 0 ==> forall q :: q in pages && q != page ==> r[q] == pages[q]
  {
    if page < 0 then pages else pages[page := PageOf(pages, page)[name := Entry(content, true, true)]]
  }

  /** A value set by the host is what a later lookup from that page returns. */
  lemma SetThenLookup(pages: Pages, name: string, content: string, page: int)
    requires page >= 0
    ensures LookupSpec(SetExternal(pages, name, content, page), name, page) == Some(Entry(content, true, true))
  {
    var r := SetExternal(pages, name, content, page);
    assert Holds(r, page, name);
    assert WalkDown(r, name, page) == Some(Entry(content, true, true));
  }
}
