/** The category handlers (controllers/category.controller.js): create with a
    unique name, list newest first, delete by the creator only. */
module CategoryController {
  import opened Common
  import opened CategoryModel

  const CATEGORY_EXISTS := Reply(400, "Category with this name already exists")
  const CATEGORY_CREATED := Reply(201, "Category created successfully")
  const CATEGORY_NOT_FOUND := Reply(404, "Category not found")
  const NOT_AUTHORIZED_TO_DELETE := Reply(403, "You are not authorized to delete this category")
  const CATEGORY_DELETED := Reply(200, "Category deleted successfully")

  /** `Category.findById`: the position of the category with that id, if any. */
  function FindById(cs: seq<Category>, id: CategoryId): (r: Option<nat>)
    ensures r.None? <==> !IdTaken(cs, id)
    ensures r.Some? ==> r.value < |cs| && cs[r.value].id == id
  {
    FirstIndex(cs, (c: Category) => c.id == id)
  }

  /** `Category.findByIdAndDelete`: the collection without the category that has that id. */
  function DeleteId(cs: seq<Category>, id: CategoryId): (r: seq<Category>)
    ensures forall c :: c in r <==> c in cs && c.id != id
  {
    if cs == [] then []
    else if cs[0].id == id then DeleteId(cs[1..], id)
    else [cs[0]] + DeleteId(cs[1..], id)
  }

  /** Deleting an id keeps the collection's invariant. */
  lemma {:induction false} DeleteIdKeepsInvariant(cs: seq<Category>, id: CategoryId)
    requires CategoriesOk(cs)
    ensures CategoriesOk(DeleteId(cs, id))
  {
    if cs != [] {
      assert CategoriesOk(cs[1..]) by {
        forall i, j | 0 <= i < j < |cs[1..]|
          ensures cs[1..][i].id != cs[1..][j].id && cs[1..][i].name != cs[1..][j].name
        {
          assert cs[1..][i] == cs[i + 1] && cs[1..][j] == cs[j + 1];
        }
      }
      DeleteIdKeepsInvariant(cs[1..], id);
      if cs[0].id != id {
        var t := DeleteId(cs[1..], id);
        var r := [cs[0]] + t;
        forall i, j | 0 <= i < j < |r| ensures r[i].id != r[j].id && r[i].name != r[j].name {
          if i == 0 {
            assert r[j] == t[j - 1] && r[j] in cs[1..];
            var k :| 0 <= k < |cs[1..]| && cs[1..][k] == r[j];
            assert cs[k + 1] == r[j];
          } else {
            assert r[i] == t[i - 1] && r[j] == t[j - 1];
          }
        }
        forall i | 0 <= i < |r| ensures ValidCategory(r[i]) && Trimmed(r[i].name) {
          if i > 0 {
            assert r[i] == t[i - 1];
          }
        }
      }
    }
  }

  /** Newest first by creation time: what `sort({ createdAt: -1 })` promises. */
  predicate NewestFirst(cs: seq<Category>)
  {
    forall i, j :: 0 <= i < j < |cs| ==> cs[i].createdAt >= cs[j].createdAt
  }

  /** In a list that is newest first, the head is at least as new as everything after it. */
  lemma HeadIsNewest(cs: seq<Category>)
    requires NewestFirst(cs) && cs != []
    ensures forall x :: x in cs[1..] ==> cs[0].createdAt >= x.createdAt
  {
    forall x | x in cs[1..] ensures cs[0].createdAt >= x.createdAt {
      var k :| 0 <= k < |cs[1..]| && cs[1..][k] == x;
      assert cs[k + 1] == x;
    }
  }

  /** A list stays newest first when something at least as new as all of it goes in front. */
  lemma PrependNewestFirst(x: Category, cs: seq<Category>)
    requires NewestFirst(cs)
    requires forall y :: y in cs ==> x.createdAt >= y.createdAt
    ensures NewestFirst([x] + cs)
  {
    forall i, j | 0 <= i < j < |[x] + cs| ensures ([x] + cs)[i].createdAt >= ([x] + cs)[j].createdAt {
      assert ([x] + cs)[j] == cs[j - 1];
      if i > 0 {
        assert ([x] + cs)[i] == cs[i - 1];
      }
    }
  }

  /** c placed into a list that is already newest first. */
  function Insert(c: Category, cs: seq<Category>): (r: seq<Category>)
    requires NewestFirst(cs)
    ensures multiset(r) == multiset(cs) + multiset{c}
    ensures forall x :: x in r ==> x == c || x in cs
    ensures NewestFirst(r)
  {
    if cs == [] || c.createdAt >= cs[0].createdAt then
      PrependNewestFirst(c, cs);
      [c] + cs
    else
      var rest := Insert(c, cs[1..]);
      HeadIsNewest(cs);
      PrependNewestFirst(cs[0], rest);
      assert cs == [cs[0]] + cs[1..];
      [cs[0]] + rest
  }

  /** The categories of a collection ordered newest first. */
  function SortNewestFirst(cs: seq<Category>): (r: seq<Category>)
    ensures multiset(r) == multiset(cs)
    ensures NewestFirst(r)
  {
    if cs == [] then []
    else
      assert cs == [cs[0]] + cs[1..];
      Insert(cs[0], SortNewestFirst(cs[1..]))
  }

  /** The categories collection, in the order the database holds them. */
  class CategoryCollection {
    var categories: seq<Category>

    ghost predicate Valid()
      reads this
    {
      CategoriesOk(categories)
    }

    constructor ()
      ensures Valid() && categories == []
    {
      categories := [];
    }

    /** getAllCategories (controllers/category.controller.js:33): every category,
        each as often as stored, newest first. */
    function GetAllCategories(): (r: seq<Category>)
      reads this
      ensures multiset(r) == multiset(categories)
      ensures NewestFirst(r)
    {
      SortNewestFirst(categories)
    }

    /** `category.save()`: the validators and the unique index on the name run, then
        the category is added to the collection. */
    method Save(c: Category) returns (saved: bool)
      modifies this
      ensures saved == (ValidCategory(c) && !NameTaken(old(categories), c.name))
      ensures categories == if saved then old(categories) + [c] else old(categories)
    {
      saved := ValidCategory(c) && !NameTaken(categories, c.name);
      if saved {
        categories := categories + [c];
      }
    }

    /** createCategory. The creator is the id in the request path, not the
        authenticated identity; `id` and `now` are what the database assigns. The
        name lookup goes through the schema's trim setter, as the mapper casts
        query values with the schema. */
    method CreateCategory(createdBy: UserId, name: Option<string>, description: Option<string>,
                          id: CategoryId, now: Time) returns (reply: Reply)
      requires Valid() && !IdTaken(categories, id)
      modifies this
      ensures Valid()
      ensures var wanted := Trim(if name.Some? then name.value else "");
        && (NameTaken(old(categories), wanted) ==> reply == CATEGORY_EXISTS && categories == old(categories))
        && (!NameTaken(old(categories), wanted) ==>
              var c := Category(id, wanted, description, createdBy, now);
              if ValidCategory(c) then reply == CATEGORY_CREATED && categories == old(categories) + [c]
              else reply == SERVER_ERROR && categories == old(categories))
    {
      var wanted := Trim(if name.Some? then name.value else "");
      if NameTaken(categories, wanted) {
        return CATEGORY_EXISTS;
      }
      var c := Category(id, wanted, description, createdBy, now);
      TrimTrimmed(if name.Some? then name.value else "");
      if ValidCategory(c) {
        AppendKeepsInvariant(categories, c);
      }
      var saved := Save(c);
      reply := if saved then CATEGORY_CREATED else SERVER_ERROR;
    }

    /** deleteCategory: a missing category is reported before the creator is
        checked, and the creator is compared with the `uid` in the request path. */
    method DeleteCategory(uid: UserId, categoryId: CategoryId) returns (reply: Reply)
      requires Valid()
      modifies this
      ensures Valid()
      ensures !IdTaken(old(categories), categoryId) ==> reply == CATEGORY_NOT_FOUND && categories == old(categories)
      ensures IdTaken(old(categories), categoryId) ==>
                var i := FindById(old(categories), categoryId).value;
                if old(categories)[i].createdBy != uid
                then reply == NOT_AUTHORIZED_TO_DELETE && categories == old(categories)
                else reply == CATEGORY_DELETED && categories == DeleteId(old(categories), categoryId)
    {
      var found := FindById(categories, categoryId);
      if found.None? {
        return CATEGORY_NOT_FOUND;
      }
      if uid != categories[found.value].createdBy {
        return NOT_AUTHORIZED_TO_DELETE;
      }
      DeleteIdKeepsInvariant(categories, categoryId);
      categories := DeleteId(categories, categoryId);
      reply := CATEGORY_DELETED;
    }
  }

  /** Adding a valid category with a trimmed name, a new id and a new name keeps the invariant. */
  lemma AppendKeepsInvariant(cs: seq<Category>, c: Category)
    requires CategoriesOk(cs) && ValidCategory(c) && Trimmed(c.name)
    requires !IdTaken(cs, c.id) && !NameTaken(cs, c.name)
    ensures CategoriesOk(cs + [c])
  {
    var r := cs + [c];
    forall i, j | 0 <= i < j < |r| ensures r[i].id != r[j].id && r[i].name != r[j].name {
      assert r[i] == cs[i];
      if j < |cs| {
        assert r[j] == cs[j];
      }
    }
    forall i | 0 <= i < |r| ensures ValidCategory(r[i]) && Trimmed(r[i].name) {
      if i < |cs| {
        assert r[i] == cs[i];
      }
    }
  }

  /** With unique ids, a successful delete removes exactly one category. */
  lemma {:induction false} DeleteIdRemovesOne(cs: seq<Category>, id: CategoryId)
    requires CategoriesOk(cs) && IdTaken(cs, id)
    ensures |DeleteId(cs, id)| == |cs| - 1
  {
    if cs[0].id == id {
      assert !IdTaken(cs[1..], id) by {
        forall k | 0 <= k < |cs[1..]| ensures cs[1..][k].id != id {
          assert cs[1..][k] == cs[k + 1];
        }
      }
      DeleteIdAbsent(cs[1..], id);
    } else {
      assert CategoriesOk(cs[1..]) by {
        forall i, j | 0 <= i < j < |cs[1..]|
          ensures cs[1..][i].id != cs[1..][j].id && cs[1..][i].name != cs[1..][j].name
        {
          assert cs[1..][i] == cs[i + 1] && cs[1..][j] == cs[j + 1];
        }
      }
      assert IdTaken(cs[1..], id) by {
        var k :| 0 <= k < |cs| && cs[k].id == id;
        assert k > 0 && cs[1..][k - 1] == cs[k];
      }
      DeleteIdRemovesOne(cs[1..], id);
    }
  }

  /** Deleting an id that is not there changes nothing. */
  lemma {:induction false} DeleteIdAbsent(cs: seq<Category>, id: CategoryId)
    requires !IdTaken(cs, id)
    ensures DeleteId(cs, id) == cs
  {
    if cs != [] {
      assert !IdTaken(cs[1..], id) by {
        forall k | 0 <= k < |cs[1..]| ensures cs[1..][k].id != id {
          assert cs[1..][k] == cs[k + 1];
        }
      }
      DeleteIdAbsent(cs[1..], id);
    }
  }
}
