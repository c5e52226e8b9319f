/** `enhanceArticle` (backend/controllers.ts): look the row up by id, answer 404 when there is
    none, otherwise ask the generator for a rewrite of its content and store it on that row,
    marking it updated; any failure along the way answers 500.

    The generator (`generateWithGroq` in backend/groq.ts) is a function of the article's
    content alone, since the title and source it is also passed never reach its prompt; `None`
    is a call that throws. Database failures are given as flags. */
module Enhancement {
  import opened Common
  import opened Store

  /** The response: `{ success: true }`, 404 or 500. */
  datatype Reply = Success | NotFound | Failed

  /** Which database calls throw. A request id that is not an integer makes the select
      throw. */
  datatype Faults = Faults(selectFails: bool, updateFails: bool)

  /** The generator: the rewrite of an article's content, `None` when the call throws. */
  type Generator = string -> Option<string>

  /** The reply and the table after one request. */
  datatype Handled = Handled(reply: Reply, rows: seq<Article>)

  /** `enhanceArticle` on a table. */
  function Enhance(rows: seq<Article>, id: int, generate: Generator, faults: Faults): Handled {
    if faults.selectFails then Handled(Failed, rows)
    else match FindById(rows, id)
      case None => Handled(NotFound, rows)
      case Some(article) =>
        match generate(article.content)
        case None => Handled(Failed, rows)
        case Some(enhanced) =>
          if faults.updateFails then Handled(Failed, rows)
          else Handled(Success, SetEnhanced(rows, id, enhanced))
  }

  /** A missing id answers 404 and changes nothing; between them a 404 and a 500 leave the
      table exactly as it was. */
  lemma EnhanceNotFound(rows: seq<Article>, id: int, generate: Generator, faults: Faults)
    ensures var h := Enhance(rows, id, generate, faults);
            h.reply == NotFound <==> !faults.selectFails && forall i :: 0 <= i < |rows| ==> rows[i].id != id
    ensures var h := Enhance(rows, id, generate, faults);
            h.reply != Success ==> h.rows == rows
  {
    if !faults.selectFails && exists i :: 0 <= i < |rows| && rows[i].id == id {
      assert FindById(rows, id).Some?;
    }
  }

  /** A request succeeds exactly when the database does not fail, some row has the id, and
      the generator answers for the content of the first such row. */
  lemma EnhanceSuccess(rows: seq<Article>, id: int, generate: Generator, faults: Faults)
    ensures Enhance(rows, id, generate, faults).reply == Success <==>
              !faults.selectFails && !faults.updateFails &&
              exists k :: 0 <= k < |rows| && rows[k].id == id && generate(rows[k].content).Some? &&
                          forall j :: 0 <= j < k ==> rows[j].id != id
  {
    FindFirst(rows, id);
  }

  /** The row `FindById` returns is the first with that id. */
  lemma FindFirst(rows: seq<Article>, id: int)
    ensures FindById(rows, id).Some? ==>
              exists k :: 0 <= k < |rows| && rows[k] == FindById(rows, id).value &&
                          forall j :: 0 <= j < k ==> rows[j].id != id
    ensures forall k :: 0 <= k < |rows| && rows[k].id == id && (forall j :: 0 <= j < k ==> rows[j].id != id) ==>
              FindById(rows, id) == Some(rows[k])
  {
    if FindById(rows, id).Some? {
      var k := FoundIsFirst(rows, id);
    }
    forall k | 0 <= k < |rows| && rows[k].id == id && (forall j :: 0 <= j < k ==> rows[j].id != id)
      ensures FindById(rows, id) == Some(rows[k])
    {
      FirstIsFound(rows, id, k);
    }
  }

  /** The row found sits at the returned index, with no row of its id before it. */
  lemma {:induction false} FoundIsFirst(rows: seq<Article>, id: int) returns (k: nat)
    requires FindById(rows, id).Some?
    ensures k < |rows| && rows[k] == FindById(rows, id).value
    ensures forall j :: 0 <= j < k ==> rows[j].id != id
  {
    if rows[0].id == id {
      k := 0;
    } else {
      assert FindById(rows, id) == FindById(rows[1..], id);
      var k' := FoundIsFirst(rows[1..], id);
      k := k' + 1;
      assert rows[k] == rows[1..][k'];
      assert forall j :: 1 <= j < k ==> rows[j] == rows[1..][j - 1];
    }
  }

  /** The first row with the id is the one found. */
  lemma {:induction false} FirstIsFound(rows: seq<Article>, id: int, k: nat)
    requires k < |rows| && rows[k].id == id && forall j :: 0 <= j < k ==> rows[j].id != id
    ensures FindById(rows, id) == Some(rows[k])
  {
    if k > 0 {
      assert rows[0].id != id;
      assert FindById(rows, id) == FindById(rows[1..], id);
      assert forall j :: 0 <= j < k - 1 ==> rows[1..][j] == rows[j + 1];
      FirstIsFound(rows[1..], id, k - 1);
    }
  }

  /** With unique ids the enhanced row is the one with that id, and only its enhanced content
      and updated mark change. */
  lemma EnhanceOneRow(rows: seq<Article>, nextId: nat, id: int, generate: Generator, faults: Faults)
    requires WellFormed(rows, nextId)
    requires Enhance(rows, id, generate, faults).reply == Success
    ensures var h := Enhance(rows, id, generate, faults);
            exists k :: 0 <= k < |rows| && rows[k].id == id &&
              generate(rows[k].content).Some? &&
              h.rows == rows[k := rows[k].(enhancedContent := generate(rows[k].content), isUpdated := true)]
  {
    var found := FindById(rows, id);
    assert !faults.selectFails && found.Some?;
    var article := found.value;
    assert generate(article.content).Some? && !faults.updateFails;
    var text := generate(article.content).value;
    var after := SetEnhanced(rows, id, text);
    assert Enhance(rows, id, generate, faults).rows == after;
    var k :| 0 <= k < |rows| && rows[k] == article;
    var want := rows[k := rows[k].(enhancedContent := Some(text), isUpdated := true)];
    forall i | 0 <= i < |rows| ensures after[i] == want[i] {
      if i != k {
        assert rows[i].id != rows[k].id by {
          if i < k { assert rows[i].id < rows[k].id; } else { assert rows[k].id < rows[i].id; }
        }
      }
    }
    assert after == want;
  }

  /** Every request keeps the table well formed. */
  lemma EnhanceKeepsTable(rows: seq<Article>, nextId: nat, id: int, generate: Generator, faults: Faults)
    requires WellFormed(rows, nextId)
    ensures WellFormed(Enhance(rows, id, generate, faults).rows, nextId)
  {
    var found := FindById(rows, id);
    if !faults.selectFails && found.Some? && generate(found.value.content).Some? {
      SetEnhancedWellFormed(rows, nextId, id, generate(found.value.content).value);
    }
  }

  /** The handler. */
  method EnhanceArticle(store: ArticleStore, id: int, generate: Generator, faults: Faults)
    returns (reply: Reply)
    requires store.Valid()
    modifies store
    ensures store.Valid() && store.nextId == old(store.nextId)
    ensures Handled(reply, store.rows) == Enhance(old(store.rows), id, generate, faults)
  {
    if faults.selectFails {
      return Failed;
    }
    var article := store.SelectById(id);
    if article.None? {
      return NotFound;
    }
    var enhanced := generate(article.value.content);
    if enhanced.None? {
      return Failed;
    }
    if faults.updateFails {
      return Failed;
    }
    store.UpdateEnhanced(id, enhanced.value);
    reply := Success;
  }
}
