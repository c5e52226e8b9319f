/** The `articles` table (backend/schema.ts) and the queries the controllers run on it. The
    table is a sequence of rows in insertion order; `nextId` is the `serial` counter that
    gives each inserted row its id. */
module Store {
  import opened Common

  /** One row. `createdAt` is filled in by the database clock and is left out. */
  datatype Article = Article(
    id: nat,
    title: string,
    content: string,
    sourceUrl: Option<string>,
    enhancedContent: Option<string>,
    references: Option<string>,
    isUpdated: bool)

  /** Ids are positive, increase with insertion order and stay below the counter, and a row
      marked updated has enhanced content. */
  predicate WellFormed(rows: seq<Article>, nextId: nat) {
    1 <= nextId &&
    (forall i :: 0 <= i < |rows| ==> 1 <= rows[i].id < nextId) &&
    (forall i, j :: 0 <= i < j < |rows| ==> rows[i].id < rows[j].id) &&
    (forall i :: 0 <= i < |rows| ==> rows[i].isUpdated ==> rows[i].enhancedContent.Some?)
  }

  /** Some row has this `sourceUrl`. */
  predicate HasSource(rows: seq<Article>, url: string) {
    exists i :: 0 <= i < |rows| && rows[i].sourceUrl == Some(url)
  }

  /** The rows whose `sourceUrl` equals `url`, in table order. */
  function WithSource(rows: seq<Article>, url: string): (r: seq<Article>)
    ensures forall a :: a in r <==> a in rows && a.sourceUrl == Some(url)
    ensures r == [] <==> !HasSource(rows, url)
  {
    if rows == [] then []
    else
      (if rows[0].sourceUrl == Some(url) then [rows[0]] else []) + WithSource(rows[1..], url)
  }

  /** The first row with this id. */
  function FindById(rows: seq<Article>, id: int): (r: Option<Article>)
    ensures r.Some? ==> r.value in rows && r.value.id == id
    ensures r.None? ==> forall i :: 0 <= i < |rows| ==> rows[i].id != id
  {
    if rows == [] then None
    else if rows[0].id == id then Some(rows[0])
    else FindById(rows[1..], id)
  }

  /** `UPDATE articles SET enhanced_content = text, is_updated = true WHERE id = id`. */
  function SetEnhanced(rows: seq<Article>, id: int, text: string): (r: seq<Article>)
    ensures |r| == |rows|
    ensures forall i :: 0 <= i < |rows| ==>
              r[i] == if rows[i].id == id
                      then rows[i].(enhancedContent := Some(text), isUpdated := true)
                      else rows[i]
  {
    if rows == [] then []
    else
      [if rows[0].id == id then rows[0].(enhancedContent := Some(text), isUpdated := true)
       else rows[0]] + SetEnhanced(rows[1..], id, text)
  }

  /** The update keeps the table well formed. */
  lemma SetEnhancedWellFormed(rows: seq<Article>, nextId: nat, id: int, text: string)
    requires WellFormed(rows, nextId)
    ensures WellFormed(SetEnhanced(rows, id, text), nextId)
  {
    var r := SetEnhanced(rows, id, text);
    assert forall i :: 0 <= i < |rows| ==> r[i].id == rows[i].id;
  }

  lemma HasSourceAppend(rows: seq<Article>, row: Article, url: string)
    ensures HasSource(rows + [row], url) <==> HasSource(rows, url) || row.sourceUrl == Some(url)
  {
    var r := rows + [row];
    assert r[|rows|] == row;
    assert forall i :: 0 <= i < |rows| ==> r[i] == rows[i];
  }

  /** No two rows share a source. */
  predicate UniqueSources(rows: seq<Article>) {
    forall i, j :: 0 <= i < j < |rows| && rows[i].sourceUrl.Some? ==>
      rows[i].sourceUrl != rows[j].sourceUrl
  }

  /** Appending a row whose source no row has keeps sources unique. */
  lemma UniqueSourcesAppend(rows: seq<Article>, row: Article)
    requires UniqueSources(rows)
    requires row.sourceUrl.Some? ==> !HasSource(rows, row.sourceUrl.value)
    ensures UniqueSources(rows + [row])
  {
    var r := rows + [row];
    forall i, j | 0 <= i < j < |r| && r[i].sourceUrl.Some? ensures r[i].sourceUrl != r[j].sourceUrl {
      assert r[i] == rows[i];
      if j < |rows| {
        assert r[j] == rows[j];
      }
    }
  }

  /** Appending a row numbered by the counter, not updated, keeps the table well formed once
      the counter moves on. */
  lemma WellFormedAppend(rows: seq<Article>, nextId: nat, row: Article)
    requires WellFormed(rows, nextId) && row.id == nextId && !row.isUpdated
    ensures WellFormed(rows + [row], nextId + 1)
  {
    var r := rows + [row];
    assert forall i :: 0 <= i < |rows| ==> r[i] == rows[i];
  }

  /** Rows appended with the next ids in turn, none marked updated, keep the table well
      formed. */
  lemma WellFormedExtend(rows: seq<Article>, nextId: nat, after: seq<Article>, nextId': nat)
    requires WellFormed(rows, nextId) && rows <= after && nextId' == nextId + (|after| - |rows|)
    requires forall i :: |rows| <= i < |after| ==>
               after[i].id == nextId + (i - |rows|) && !after[i].isUpdated
    ensures WellFormed(after, nextId')
  {
    assert forall i :: 0 <= i < |rows| ==> after[i] == rows[i];
  }

  /** The row an insert adds: the next id, no enhanced content, no references, not updated. */
  function NewRow(id: nat, title: string, content: string, sourceUrl: string): Article {
    Article(id, title, content, Some(sourceUrl), None, None, false)
  }

  class ArticleStore {
    var rows: seq<Article>
    var nextId: nat

    predicate Valid()
      reads this
    {
      WellFormed(rows, nextId)
    }

    /** An empty table whose counter starts at 1. */
    constructor ()
      ensures Valid() && rows == [] && nextId == 1
    {
      rows := [];
      nextId := 1;
    }

    /** `SELECT * FROM articles WHERE source_url = url`. */
    method SelectBySource(url: string) returns (matches: seq<Article>)
      requires Valid()
      ensures forall a :: a in matches <==> a in rows && a.sourceUrl == Some(url)
      ensures matches == [] <==> !HasSource(rows, url)
      ensures matches == WithSource(rows, url)
    {
      matches := WithSource(rows, url);
    }

    /** `SELECT * FROM articles WHERE id = id`, keeping the first row (ids are unique). */
    method SelectById(id: int) returns (found: Option<Article>)
      requires Valid()
      ensures found.Some? ==> found.value in rows && found.value.id == id
      ensures found.None? <==> forall i :: 0 <= i < |rows| ==> rows[i].id != id
      ensures found == FindById(rows, id)
    {
      found := FindById(rows, id);
    }

    /** `INSERT INTO articles (title, content, source_url, is_updated) VALUES (...,false)`. */
    method Insert(title: string, content: string, sourceUrl: string)
      requires Valid()
      modifies this
      ensures Valid()
      ensures rows == old(rows) + [NewRow(old(nextId), title, content, sourceUrl)]
      ensures nextId == old(nextId) + 1
    {
      WellFormedAppend(rows, nextId, NewRow(nextId, title, content, sourceUrl));
      rows := rows + [NewRow(nextId, title, content, sourceUrl)];
      nextId := nextId + 1;
    }

    /** `UPDATE articles SET enhanced_content = text, is_updated = true WHERE id = id`. */
    method UpdateEnhanced(id: int, text: string)
      requires Valid()
      modifies this
      ensures Valid()
      ensures rows == SetEnhanced(old(rows), id, text)
      ensures nextId == old(nextId)
    {
      SetEnhancedWellFormed(rows, nextId, id, text);
      rows := SetEnhanced(rows, id, text);
    }
  }
}
