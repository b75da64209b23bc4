/** The lunch picker: a list of restaurants that can be extended, pruned, reset to the
    twelve defaults, and drawn from at random. */
module Lunch {
  import opened Common

  datatype Restaurant = Restaurant(id: int, name: string, emoji: string)

  const DefaultRestaurants: seq<Restaurant> := [
    Restaurant(1, "滷肉飯", "🍚"),
    Restaurant(2, "牛肉麵", "🍜"),
    Restaurant(3, "便當", "🍱"),
    Restaurant(4, "水餃", "🥟"),
    Restaurant(5, "炒飯", "🍛"),
    Restaurant(6, "義大利麵", "🍝"),
    Restaurant(7, "拉麵", "🍜"),
    Restaurant(8, "漢堡", "🍔"),
    Restaurant(9, "披薩", "🍕"),
    Restaurant(10, "壽司", "🍣"),
    Restaurant(11, "雞排", "🍗"),
    Restaurant(12, "排骨飯", "🍖")]

  /** The emojis a newly added restaurant draws from. */
  const Emojis: seq<string> := ["🍽️", "🥘", "🍲", "🥗", "🌮", "🌯", "🥙", "🍴"]

  /** The number of ticks of the spinning draw. */
  const MaxCount: nat := 20

  predicate DistinctIds(rs: seq<Restaurant>) {
    forall i, j :: 0 <= i < j < |rs| ==> rs[i].id != rs[j].id
  }

  predicate HasId(rs: seq<Restaurant>, id: int) {
    exists k :: 0 <= k < |rs| && rs[k].id == id
  }

  /** The default list numbers its restaurants 1 to 12. */
  lemma DefaultIds()
    ensures |DefaultRestaurants| == 12
    ensures forall k :: 0 <= k < 12 ==> DefaultRestaurants[k].id == k + 1
    ensures DistinctIds(DefaultRestaurants)
  {
  }

  /** `Math.floor(Math.random() * n)` for a draw `r` of Math.random. */
  function RandomIndex(r: real, n: nat): (k: nat)
    requires 0.0 <= r < 1.0 && n > 0
    ensures k < n
  {
    var x := r * n as real;
    assert 0.0 <= x < n as real;
    x.Floor
  }

  /** `Math.max(...ids, 0)`. */
  function MaxId(rs: seq<Restaurant>): (m: int)
    ensures m >= 0
    ensures forall k :: 0 <= k < |rs| ==> rs[k].id <= m
    ensures m == 0 || HasId(rs, m)
  {
    if rs == [] then 0
    else
      var rest := MaxId(rs[1..]);
      assert forall k :: 1 <= k < |rs| ==> rs[k] == rs[1..][k - 1];
      assert HasId(rs[1..], rest) ==> HasId(rs, rest) by {
        if HasId(rs[1..], rest) {
          var k :| 0 <= k < |rs[1..]| && rs[1..][k].id == rest;
          assert rs[k + 1].id == rest;
        }
      }
      if rs[0].id > rest then rs[0].id else rest
  }

  /** The id of a new restaurant. */
  function NextId(rs: seq<Restaurant>): (n: int)
    ensures n >= 1
    ensures forall k :: 0 <= k < |rs| ==> rs[k].id < n
  {
    MaxId(rs) + 1
  }

  /** A list with distinct ids keeps them distinct when a restaurant with the next id is
      appended. */
  lemma AppendNextIdDistinct(rs: seq<Restaurant>, r: Restaurant)
    requires DistinctIds(rs) && r.id == NextId(rs)
    ensures DistinctIds(rs + [r])
  {
    var s := rs + [r];
    forall i, j | 0 <= i < j < |s| ensures s[i].id != s[j].id {
      if j < |rs| {
        assert s[i] == rs[i] && s[j] == rs[j];
      } else {
        assert s[i] == rs[i];
      }
    }
  }

  function WithoutId(id: int): Restaurant -> bool {
    (r: Restaurant) => r.id != id
  }

  /** Removing entries from a list with distinct ids leaves distinct ids. */
  lemma {:induction false} FilterKeepsDistinctIds(rs: seq<Restaurant>, p: Restaurant -> bool)
    requires DistinctIds(rs)
    ensures DistinctIds(Filter(rs, p))
  {
    if rs != [] {
      var rest := rs[1..];
      assert DistinctIds(rest) by {
        forall i, j | 0 <= i < j < |rest| ensures rest[i].id != rest[j].id {
          assert rest[i] == rs[i + 1] && rest[j] == rs[j + 1];
        }
      }
      FilterKeepsDistinctIds(rest, p);
      if p(rs[0]) {
        var f := Filter(rest, p);
        FilterMembers(rest, p);
        var s := [rs[0]] + f;
        forall i, j | 0 <= i < j < |s| ensures s[i].id != s[j].id {
          if i == 0 {
            assert s[j] == f[j - 1] && f[j - 1] in rest;
            var k :| 0 <= k < |rest| && rest[k] == f[j - 1];
            assert rs[k + 1] == rest[k];
          } else {
            assert s[i] == f[i - 1] && s[j] == f[j - 1];
          }
        }
      }
    }
  }

  /** With distinct ids, deleting an id present in the list removes exactly one entry,
      and deleting an absent one removes none. */
  lemma {:induction false} DeleteCount(rs: seq<Restaurant>, id: int)
    requires DistinctIds(rs)
    ensures |Filter(rs, WithoutId(id))| == if HasId(rs, id) then |rs| - 1 else |rs|
  {
    if rs != [] {
      var rest := rs[1..];
      assert forall k :: 0 <= k < |rest| ==> rest[k] == rs[k + 1];
      assert DistinctIds(rest);
      assert HasId(rs, id) <==> rs[0].id == id || HasId(rest, id) by {
        if HasId(rs, id) {
          var k :| 0 <= k < |rs| && rs[k].id == id;
          if k > 0 {
            assert rest[k - 1].id == id;
          }
        }
      }
      if rs[0].id == id {
        assert forall x :: x in rest ==> WithoutId(id)(x) by {
          forall x | x in rest ensures x.id != id {
            var k :| 0 <= k < |rest| && rest[k] == x;
            assert rs[k + 1] == x;
          }
        }
        FilterKeepsAll(rest, WithoutId(id));
      } else {
        DeleteCount(rest, id);
      }
    }
  }

  class LunchPicker {
    var restaurants: seq<Restaurant>
    var newRestaurant: string
    var selected: Option<Restaurant>
    var isSpinning: bool

    predicate Valid()
      reads this
    {
      DistinctIds(restaurants)
    }

    /** Mounting: the list saved in the browser when there is one, else the defaults.
        Reading and writing the browser's storage is not modelled. */
    constructor (saved: Option<seq<Restaurant>>)
      ensures restaurants == (if saved.Some? then saved.value else DefaultRestaurants)
      ensures newRestaurant == "" && selected.None? && !isSpinning
    {
      restaurants := if saved.Some? then saved.value else DefaultRestaurants;
      newRestaurant := "";
      selected := None;
      isSpinning := false;
    }

    /** Typing in the name field. */
    method SetNewRestaurant(text: string)
      modifies this
      ensures newRestaurant == text
      ensures restaurants == old(restaurants) && selected == old(selected) && isSpinning == old(isSpinning)
    {
      newRestaurant := text;
    }

    /** `handleAddRestaurant`, with `draw` the value Math.random returned for the emoji:
        a blank name changes nothing; otherwise the trimmed name is appended under the
        next id and the field is cleared. */
    method AddRestaurant(draw: real)
      requires 0.0 <= draw < 1.0
      modifies this
      ensures IsBlank(old(newRestaurant)) ==> restaurants == old(restaurants) && newRestaurant == old(newRestaurant)
      ensures !IsBlank(old(newRestaurant)) ==>
        restaurants == old(restaurants) + [Restaurant(NextId(old(restaurants)), Trim(old(newRestaurant)), Emojis[RandomIndex(draw, |Emojis|)])]
        && newRestaurant == ""
      ensures selected == old(selected) && isSpinning == old(isSpinning)
      ensures old(Valid()) ==> Valid()
    {
      var name := Trim(newRestaurant);
      if name != "" {
        var newId := NextId(restaurants);
        var emoji := Emojis[RandomIndex(draw, |Emojis|)];
        var added := Restaurant(newId, name, emoji);
        if Valid() {
          AppendNextIdDistinct(restaurants, added);
        }
        restaurants := restaurants + [added];
        newRestaurant := "";
      }
    }

    /** `handleDeleteRestaurant`: every entry with the id goes, and the selection is
        cleared when it had that id. */
    method DeleteRestaurant(id: int)
      modifies this
      ensures restaurants == Filter(old(restaurants), WithoutId(id))
      ensures selected == if old(selected).Some? && old(selected).value.id == id then None else old(selected)
      ensures newRestaurant == old(newRestaurant) && isSpinning == old(isSpinning)
      ensures old(Valid()) ==> Valid()
    {
      if Valid() {
        FilterKeepsDistinctIds(restaurants, WithoutId(id));
      }
      restaurants := Filter(restaurants, WithoutId(id));
      if selected.Some? && selected.value.id == id {
        selected := None;
      }
    }

    /** `handlePickRandom` run to its end, with `draws` the values Math.random returns
        on the twenty ticks: nothing happens on an empty list; otherwise each tick shows
        a restaurant of the list and the last one stays selected. */
    method PickRandom(draws: seq<real>)
      requires |draws| == MaxCount && forall k :: 0 <= k < |draws| ==> 0.0 <= draws[k] < 1.0
      modifies this
      ensures old(restaurants) == [] ==> selected == old(selected) && isSpinning == old(isSpinning)
      ensures old(restaurants) != [] ==>
        && restaurants == old(restaurants)
        && selected == Some(restaurants[RandomIndex(draws[MaxCount - 1], |restaurants|)])
        && !isSpinning
      ensures selected.Some? && old(restaurants) != [] ==> selected.value in restaurants
      ensures restaurants == old(restaurants) && newRestaurant == old(newRestaurant)
    {
      if restaurants == [] {
        return;
      }
      isSpinning := true;
      selected := None;
      var count := 0;
      while count < MaxCount
        invariant 0 <= count <= MaxCount
        invariant restaurants == old(restaurants) != []
        invariant count > 0 ==> selected == Some(restaurants[RandomIndex(draws[count - 1], |restaurants|)])
        invariant restaurants == old(restaurants) && newRestaurant == old(newRestaurant)
        invariant isSpinning
      {
        var randomIndex := RandomIndex(draws[count], |restaurants|);
        selected := Some(restaurants[randomIndex]);
        count := count + 1;
      }
      isSpinning := false;
    }

    /** `handleResetToDefault`. */
    method ResetToDefault()
      modifies this
      ensures restaurants == DefaultRestaurants && selected.None?
      ensures newRestaurant == old(newRestaurant) && isSpinning == old(isSpinning)
      ensures Valid()
    {
      DefaultIds();
      restaurants := DefaultRestaurants;
      selected := None;
    }
  }

  /** Deleting keeps exactly the entries without the id, in their order. */
  lemma DeleteKeepsOthers(rs: seq<Restaurant>, id: int)
    ensures forall r :: r in Filter(rs, WithoutId(id)) <==> r in rs && r.id != id
    ensures IsSubsequence(Filter(rs, WithoutId(id)), rs)
  {
    FilterMembers(rs, WithoutId(id));
    FilterSubsequence(rs, WithoutId(id));
  }
}
