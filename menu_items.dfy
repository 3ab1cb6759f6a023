/** The manager's menu-item screen (src/pages/MenuItemsPage.tsx): the list of
    menu items with create, delete and in-place edit, and the list grouped by
    category for display. */
module MenuItems {
  import opened Types
  import Lists

  /** The create form; every field is the text of its input. */
  datatype MenuItemForm = MenuItemForm(name: string, price: string, availability: string, category: string)

  /** The form as first shown: empty fields, category `MAIN`. */
  const InitialForm: MenuItemForm := MenuItemForm("", "", "", "MAIN")

  /** The form after a successful create: every field empty, the category too. */
  const ClearedForm: MenuItemForm := MenuItemForm("", "", "", "")

  /** The display labels of the four known categories. */
  const Labels: map<string, string> :=
    map["APPETIZER" := "Appetizers", "MAIN" := "Main Dishes", "DESSERT" := "Desserts", "DRINK" := "Drinks"]

  /** `categoryLabels[c] || c`: the label of a known category, the raw value of
      any other. */
  function CategoryLabel(c: string): (r: string)
    ensures c in Labels ==> r == Labels[c]
    ensures c !in Labels ==> r == c
  {
    if c in Labels then Labels[c] else c
  }

  /** A category is shown as its raw value exactly when it is not one of the
      four known ones. */
  lemma LabelFallback(c: string)
    ensures CategoryLabel(c) == c <==> c !in Labels
  {
    if c in Labels {
      assert c == "APPETIZER" || c == "MAIN" || c == "DESSERT" || c == "DRINK";
    }
  }

  /** The form reset after a create does not restore the initial category:
      it names no known category at all. */
  lemma ClearedFormCategory()
    ensures ClearedForm.category != InitialForm.category
    ensures ClearedForm.category !in Labels && InitialForm.category in Labels
  {
  }

  /** One displayed table: a category and its items. */
  datatype Group = Group(category: string, items: seq<MenuItem>)

  /** The items of one category, in list order. */
  function InCategory(s: seq<MenuItem>, c: string): (r: seq<MenuItem>)
    ensures forall x :: x in r <==> x in s && x.category == c
  {
    Lists.FilterMembers(s, (m: MenuItem) => m.category == c);
    Lists.Filter(s, (m: MenuItem) => m.category == c)
  }

  /** Appending an item extends the group of its category and no other. */
  lemma InCategoryAppend(s: seq<MenuItem>, x: MenuItem, c: string)
    ensures InCategory(s + [x], c) == InCategory(s, c) + (if x.category == c then [x] else [])
  {
    Lists.FilterAppend(s, [x], (m: MenuItem) => m.category == c);
    assert [x][1..] == [];
  }

  /** The categories of a list, each once, in order of first appearance: the
      insertion order of the accumulator's keys. */
  function Categories(s: seq<MenuItem>): (r: seq<string>)
    ensures forall i, j :: 0 <= i < j < |r| ==> r[i] != r[j]
  {
    if s == [] then []
    else
      var prefix := s[..|s| - 1];
      var x := s[|s| - 1];
      assert s == prefix + [x];
      var earlier := Categories(prefix);
      if x.category in earlier then earlier else earlier + [x.category]
  }

  /** The categories listed are exactly those of the items. */
  lemma {:induction false} CategoriesMembers(s: seq<MenuItem>)
    ensures forall c :: c in Categories(s) <==> exists x :: x in s && x.category == c
  {
    if s != [] {
      var prefix := s[..|s| - 1];
      var x := s[|s| - 1];
      assert s == prefix + [x];
      CategoriesMembers(prefix);
      forall c ensures c in Categories(s) <==> exists y :: y in s && y.category == c {
        if c in Categories(s) && c != x.category {
          assert c in Categories(prefix);
          var y :| y in prefix && y.category == c;
          assert y in s;
        }
        if exists y :: y in s && y.category == c {
          var y :| y in s && y.category == c;
          if y != x {
            assert y in prefix;
          }
        }
      }
    }
  }

  /** `Object.entries(groupedItems)`: one group per category, in order of
      first appearance, each holding the items of that category. */
  function Grouped(s: seq<MenuItem>): (r: seq<Group>)
    ensures |r| == |Categories(s)|
    ensures forall i :: 0 <= i < |r| ==> r[i] == Group(Categories(s)[i], InCategory(s, Categories(s)[i]))
  {
    var cs := Categories(s);
    seq(|cs|, i requires 0 <= i < |cs| => Group(cs[i], InCategory(s, cs[i])))
  }

  /** Grouping partitions the list: the groups have distinct categories, every
      item sits in the group of its category, and a group holds only items of
      its own category. */
  lemma GroupedPartitions(s: seq<MenuItem>)
    ensures forall i, j :: 0 <= i < j < |Grouped(s)| ==> Grouped(s)[i].category != Grouped(s)[j].category
    ensures forall x :: x in s ==> exists i :: 0 <= i < |Grouped(s)| && Grouped(s)[i].category == x.category && x in Grouped(s)[i].items
    ensures forall i, x :: 0 <= i < |Grouped(s)| && x in Grouped(s)[i].items ==> x in s && x.category == Grouped(s)[i].category
  {
    var g := Grouped(s);
    var cs := Categories(s);
    CategoriesMembers(s);
    forall x | x in s
      ensures exists i :: 0 <= i < |g| && g[i].category == x.category && x in g[i].items
    {
      assert x.category in cs;
      var i :| 0 <= i < |cs| && cs[i] == x.category;
      assert x in g[i].items;
    }
  }

  /** Groups appear in order of first appearance: for two groups, the earlier
      one's category occurs in the list before the later one's first occurs. */
  lemma {:induction false} CategoriesFirstAppearance(s: seq<MenuItem>)
    ensures forall i, j :: 0 <= i < j < |Categories(s)| ==>
              exists a :: 0 <= a < |s| && s[a].category == Categories(s)[i] &&
                forall b :: 0 <= b <= a ==> s[b].category != Categories(s)[j]
  {
    if s != [] {
      var n := |s| - 1;
      var prefix := s[..n];
      var x := s[n];
      var earlier := Categories(prefix);
      var cs := Categories(s);
      assert s == prefix + [x];
      CategoriesAppend(prefix, x);
      CategoriesFirstAppearance(prefix);
      forall i, j | 0 <= i < j < |cs|
        ensures exists a :: 0 <= a < |s| && s[a].category == cs[i] &&
                  forall b :: 0 <= b <= a ==> s[b].category != cs[j]
      {
        if j < |earlier| {
          assert cs[i] == earlier[i] && cs[j] == earlier[j];
          var a :| 0 <= a < |prefix| && prefix[a].category == earlier[i] &&
                   forall b :: 0 <= b <= a ==> prefix[b].category != earlier[j];
          assert s[a] == prefix[a];
          forall b | 0 <= b <= a ensures s[b].category != cs[j] {
            assert s[b] == prefix[b];
          }
        } else {
          // cs[j] is the category that `x` brought in: it is absent from the prefix
          assert cs == earlier + [x.category] && cs[j] == x.category && x.category !in earlier;
          assert earlier[i] in earlier;
          CategoriesMembers(prefix);
          var y :| y in prefix && y.category == earlier[i];
          var a :| 0 <= a < |prefix| && prefix[a] == y;
          assert s[a] == prefix[a];
          forall b | 0 <= b <= a ensures s[b].category != cs[j] {
            assert s[b] == prefix[b];
            assert prefix[b] in prefix;
          }
        }
      }
    } else {
      assert Categories(s) == [];
    }
  }

  /** Appending an item adds its category at the end, unless it is known. */
  lemma CategoriesAppend(s: seq<MenuItem>, x: MenuItem)
    ensures Categories(s + [x]) == if x.category in Categories(s) then Categories(s) else Categories(s) + [x.category]
  {
    assert (s + [x])[..|s|] == s;
    assert (s + [x])[|s|] == x;
  }

  /** A category with no items has an empty group. */
  lemma InCategoryAbsent(s: seq<MenuItem>, c: string)
    requires c !in Categories(s)
    ensures InCategory(s, c) == []
  {
    CategoriesMembers(s);
    Lists.FilterKeepsNone(s, (m: MenuItem) => m.category == c);
  }

  /** The accumulator the reduce has built after the items `s`: every
      category met so far, holding the items of that category. */
  function AccMap(s: seq<MenuItem>): (m: map<string, seq<MenuItem>>)
    ensures forall c :: c in m <==> c in Categories(s)
    ensures forall c :: c in m ==> m[c] == InCategory(s, c)
  {
    map c | c in Categories(s) :: InCategory(s, c)
  }

  /** One step of the reduce: `acc[c] = acc[c] || []` followed by a push
      turns the accumulator of `s` into the accumulator of `s + [x]`. */
  lemma AccMapStep(s: seq<MenuItem>, x: MenuItem)
    ensures AccMap(s + [x]) == AccMap(s)[x.category := (if x.category in AccMap(s) then AccMap(s)[x.category] else []) + [x]]
  {
    var c0 := x.category;
    var m, m' := AccMap(s), AccMap(s + [x]);
    var u := m[c0 := (if c0 in m then m[c0] else []) + [x]];
    CategoriesAppend(s, x);
    assert m'.Keys == u.Keys;
    forall c | c in u ensures m'[c] == u[c] {
      InCategoryAppend(s, x, c);
      if c == c0 && c0 !in m {
        InCategoryAbsent(s, c0);
      }
    }
  }

  /** Listing the finished accumulator's entries, in key insertion order,
      gives the grouping. */
  lemma AccMapGroups(s: seq<MenuItem>, keys: seq<string>, acc: map<string, seq<MenuItem>>)
    requires keys == Categories(s) && acc == AccMap(s)
    ensures forall j :: 0 <= j < |keys| ==> keys[j] in acc
    ensures seq(|keys|, j requires 0 <= j < |keys| && keys[j] in acc => Group(keys[j], acc[keys[j]])) == Grouped(s)
  {
  }

  /** The `groupedItems` reduce: push each item onto its category's array,
      creating the array on the category's first item; then list the entries. */
  method GroupByCategory(items: seq<MenuItem>) returns (groups: seq<Group>)
    ensures groups == Grouped(items)
  {
    var keys: seq<string> := [];
    var acc: map<string, seq<MenuItem>> := map[];
    assert AccMap(items[..0]) == map[];
    for i := 0 to |items|
      invariant keys == Categories(items[..i])
      invariant acc == AccMap(items[..i])
    {
      var item := items[i];
      assert items[..i + 1] == items[..i] + [item];
      CategoriesAppend(items[..i], item);
      AccMapStep(items[..i], item);
      var group := if item.category in acc then acc[item.category] else [];
      if item.category !in acc {
        keys := keys + [item.category];
      }
      acc := acc[item.category := group + [item]];
    }
    assert items[..|items|] == items;
    AccMapGroups(items, keys, acc);
    groups := seq(|keys|, j requires 0 <= j < |keys| && keys[j] in acc => Group(keys[j], acc[keys[j]]));
  }

  /** `menuItems.find(item => item.id === id)` */
  function FindById(items: seq<MenuItem>, id: int): (r: Option<MenuItem>)
    ensures r.None? <==> forall x :: x in items ==> x.id != id
    ensures r.Some? ==> r.value.id == id && r.value in items
    ensures r.Some? ==> exists i :: 0 <= i < |items| && items[i] == r.value && forall j :: 0 <= j < i ==> items[j].id != id
  {
    Lists.Find(items, (m: MenuItem) => m.id == id)
  }

  class MenuItemsPage {
    var menuItems: seq<MenuItem>
    var loading: bool
    var newItem: MenuItemForm
    var editingId: Option<int>
    /** `Partial<MenuItem>`: a copy of the item being edited, or `{}` (None). */
    var editValues: Option<MenuItem>

    /** Nothing loaded yet, the initial form, not editing. */
    constructor ()
      ensures menuItems == [] && loading && newItem == InitialForm
      ensures editingId == None && editValues == None
    {
      menuItems := [];
      loading := true;
      newItem := InitialForm;
      editingId := None;
      editValues := None;
    }

    /** `fetchItems()`: a success replaces the list, a failure keeps it, and
        `loading` ends either way. */
    method FetchItems(response: Response<seq<MenuItem>>)
      modifies this
      ensures menuItems == if response.Ok? then response.data else old(menuItems)
      ensures !loading
      ensures newItem == old(newItem) && editingId == old(editingId) && editValues == old(editValues)
    {
      if response.Ok? {
        menuItems := response.data;
      }
      loading := false;
    }

    /** `handleCreate()`: post the form; a success appends the response and
        clears the form, a failure changes nothing. */
    method Create(response: Response<MenuItem>) returns (sent: MenuItemForm)
      modifies this
      ensures sent == old(newItem)
      ensures response.Ok? ==> menuItems == old(menuItems) + [response.data] && newItem == ClearedForm
      ensures response.Failed? ==> menuItems == old(menuItems) && newItem == old(newItem)
      ensures loading == old(loading) && editingId == old(editingId) && editValues == old(editValues)
    {
      sent := newItem;
      if response.Ok? {
        menuItems := menuItems + [response.data];
        newItem := ClearedForm;
      }
    }

    /** `handleDelete(id)`: a declined confirmation sends nothing; a confirmed,
        successful delete removes the items with that id. */
    method Delete(id: int, confirmed: bool, succeeded: bool) returns (requested: bool)
      modifies this
      ensures requested == confirmed
      ensures menuItems == if confirmed && succeeded then Lists.RemoveKey(old(menuItems), id, MenuItemId) else old(menuItems)
      ensures loading == old(loading) && newItem == old(newItem)
      ensures editingId == old(editingId) && editValues == old(editValues)
    {
      if !confirmed {
        requested := false;
        return;
      }
      requested := true;
      if succeeded {
        menuItems := Lists.RemoveKey(menuItems, id, MenuItemId);
      }
    }

    /** `handleEdit(item)`: edit that item, starting from a copy of it. */
    method Edit(item: MenuItem)
      modifies this
      ensures editingId == Some(item.id) && editValues == Some(item)
      ensures menuItems == old(menuItems) && loading == old(loading) && newItem == old(newItem)
    {
      editingId := Some(item.id);
      editValues := Some(item);
    }

    /** `handleSave(id)`: patch with the edit values; a success replaces the
        items with that id by the response and leaves edit mode, a failure
        changes nothing and stays in edit mode. */
    method Save(id: int, response: Response<MenuItem>) returns (sent: Option<MenuItem>)
      modifies this
      ensures sent == old(editValues)
      ensures response.Ok? ==> menuItems == Lists.ReplaceKey(old(menuItems), id, response.data, MenuItemId)
      ensures response.Ok? ==> editingId == None && editValues == None
      ensures response.Failed? ==> menuItems == old(menuItems) && editingId == old(editingId) && editValues == old(editValues)
      ensures loading == old(loading) && newItem == old(newItem)
    {
      sent := editValues;
      if response.Ok? {
        menuItems := Lists.ReplaceKey(menuItems, id, response.data, MenuItemId);
        editingId := None;
        editValues := None;
      }
    }

    /** `handleCancel(id)`: always leave edit mode; when the id is in the list,
        restore the edit values from that item, otherwise keep them. */
    method Cancel(id: int)
      modifies this
      ensures editingId == None
      ensures editValues == if FindById(old(menuItems), id).Some? then FindById(old(menuItems), id) else old(editValues)
      ensures menuItems == old(menuItems) && loading == old(loading) && newItem == old(newItem)
    {
      var original := FindById(menuItems, id);
      if original.Some? {
        editValues := original;
      }
      editingId := None;
    }

    /** The displayed tables, present once loading has ended. */
    method Groups() returns (groups: Option<seq<Group>>)
      ensures groups == if loading then None else Some(Grouped(menuItems))
    {
      if loading {
        groups := None;
      } else {
        var g := GroupByCategory(menuItems);
        groups := Some(g);
      }
    }
  }
}
