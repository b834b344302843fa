/**
  The story register: an insertion-ordered map from integer chunk id to
  chunk text (an `OrderedDict` in the source), together with a counter
  that supplies the id of the next appended chunk.

  `Register` is the value such a map denotes: the keys in insertion order
  and the text stored under each. `StoryRegister` is the object the source
  mutates in place; each of its methods is specified by a function on
  `Register`.
*/
module Structures {
  import opened Wrappers

  datatype Entries = Entries(order: seq<int>, text: map<int, string>)

  /** The keys in `order` are distinct and are exactly the keys that have text. */
  ghost predicate WellFormed(e: Entries) {
    && (forall i, j :: 0 <= i < j < |e.order| ==> e.order[i] != e.order[j])
    && (forall k :: k in e.text <==> k in e.order)
  }

  type Register = e: Entries | WellFormed(e) witness Entries([], map[])

  const Empty: Register := Entries([], map[])

  /**
    `d[k] = v` on an ordered dictionary: a key already present keeps its
    place in the order and has its text replaced; a new key goes last.
  */
  function Put(r: Register, k: int, v: string): Register {
    if k in r.text then Entries(r.order, r.text[k := v])
    else Entries(r.order + [k], r.text[k := v])
  }

  /** The first key in insertion order, or -1 for an empty register. */
  function FirstKey(r: Register): (k: int)
    ensures r.order == [] ==> k == -1
    ensures r.order != [] ==> k == r.order[0] && k in r.text
  {
    if |r.order| == 0 then -1 else r.order[0]
  }

  /** The last key in insertion order, or -1 for an empty register. */
  function LastKey(r: Register): (k: int)
    ensures r.order == [] ==> k == -1
    ensures r.order != [] ==> k == r.order[|r.order| - 1] && k in r.text
  {
    if |r.order| == 0 then -1 else r.order[|r.order| - 1]
  }

  /** The text of the most recently inserted entry. */
  function LastText(r: Register): string
    requires r.order != []
  {
    r.text[LastKey(r)]
  }

  /** `popitem()`: the register without its most recently inserted entry. */
  function Popped(r: Register): (r': Register)
    requires r.order != []
    ensures r'.order + [LastKey(r)] == r.order
    ensures LastKey(r) !in r'.text
    ensures forall k :: k in r'.text ==> k in r.text && r'.text[k] == r.text[k]
  {
    var n := |r.order|;
    assert r.order == r.order[..n - 1] + [r.order[n - 1]];
    Entries(r.order[..n - 1], r.text - {r.order[n - 1]})
  }

  /** `OrderedDict(pairs)`: the pairs stored one after another, left to right. */
  function FromPairs(pairs: seq<(int, string)>): Register
    decreases |pairs|
  {
    if |pairs| == 0 then Empty
    else
      var last := pairs[|pairs| - 1];
      Put(FromPairs(pairs[..|pairs| - 1]), last.0, last.1)
  }

  /** A new key is stored last, so it becomes the last key and the first key stays put. */
  lemma PutFreshIsLast(r: Register, k: int, v: string)
    requires k !in r.text
    ensures Put(r, k, v).order == r.order + [k]
    ensures LastKey(Put(r, k, v)) == k && LastText(Put(r, k, v)) == v
    ensures FirstKey(Put(r, k, v)) == if r.order == [] then k else FirstKey(r)
  {
  }

  /** Storing under a present key leaves the insertion order, and so both end keys, as they were. */
  lemma PutExistingKeepsOrder(r: Register, k: int, v: string)
    requires k in r.text
    ensures Put(r, k, v).order == r.order
    ensures FirstKey(Put(r, k, v)) == FirstKey(r) && LastKey(Put(r, k, v)) == LastKey(r)
  {
  }

  /** Storing `v` under `k` changes the text of `k` and of no other key. */
  lemma PutOnlyChangesKey(r: Register, k: int, v: string)
    ensures k in Put(r, k, v).text && Put(r, k, v).text[k] == v
    ensures forall j :: j != k ==> (j in Put(r, k, v).text <==> j in r.text)
    ensures forall j :: j != k && j in r.text ==> Put(r, k, v).text[j] == r.text[j]
  {
  }

  /** Popping right after storing under a new key gives back that text and the register as it was. */
  lemma PopUndoesPut(r: Register, k: int, v: string)
    requires k !in r.text
    ensures Put(r, k, v).order != []
    ensures LastText(Put(r, k, v)) == v
    ensures Popped(Put(r, k, v)) == r
  {
  }

  /** A key has text after building from pairs exactly when some pair carries it. */
  lemma {:induction false} FromPairsKeys(pairs: seq<(int, string)>)
    ensures forall k :: k in FromPairs(pairs).text <==> exists i :: 0 <= i < |pairs| && pairs[i].0 == k
    ensures |FromPairs(pairs).order| <= |pairs|
    decreases |pairs|
  {
    if |pairs| > 0 {
      var init := pairs[..|pairs| - 1];
      FromPairsKeys(init);
      forall i | 0 <= i < |init|
        ensures init[i] == pairs[i]
      {
      }
      forall i | 0 <= i < |pairs|
        ensures pairs[i].0 in FromPairs(pairs).text
      {
        if i < |pairs| - 1 {
          assert init[i] == pairs[i];
          assert exists l :: 0 <= l < |init| && init[l].0 == pairs[i].0;
        }
      }
    }
  }

  /** The text stored under a key is the text of the last pair that carries it. */
  lemma {:induction false} FromPairsLastWins(pairs: seq<(int, string)>, j: nat)
    requires j < |pairs|
    requires forall l :: j < l < |pairs| ==> pairs[l].0 != pairs[j].0
    ensures pairs[j].0 in FromPairs(pairs).text
    ensures FromPairs(pairs).text[pairs[j].0] == pairs[j].1
    decreases |pairs|
  {
    if j < |pairs| - 1 {
      var init := pairs[..|pairs| - 1];
      assert init[j] == pairs[j];
      FromPairsLastWins(init, j);
    }
  }

  /**
    A story whose pairs carry the ids 0, 1, ..., n-1 in that order is
    stored in that order, so the count of pairs is the first unused id.
  */
  lemma {:induction false} FromDensePairs(pairs: seq<(int, string)>)
    requires forall i :: 0 <= i < |pairs| ==> pairs[i].0 == i
    ensures |FromPairs(pairs).order| == |pairs|
    ensures forall i :: 0 <= i < |pairs| ==> FromPairs(pairs).order[i] == i
    ensures |pairs| !in FromPairs(pairs).text
    decreases |pairs|
  {
    if |pairs| > 0 {
      var n := |pairs|;
      var init := pairs[..n - 1];
      FromDensePairs(init);
      assert (n - 1) !in FromPairs(init).text;
      assert FromPairs(pairs).order == FromPairs(init).order + [n - 1];
    }
  }

  /** The story register object: an ordered map of chunks plus its private next-id counter. */
  class StoryRegister {
    var order: seq<int>
    var text: map<int, string>
    var nextId: int

    ghost predicate Valid()
      reads this
    {
      WellFormed(Entries(order, text))
    }

    /** The chunks the object holds, as a value. */
    function Model(): Register
      reads this
      requires Valid()
    {
      Entries(order, text)
    }

    /** Store the pairs in order; the counter starts at the number of pairs supplied. */
    constructor (pairs: seq<(int, string)>)
      ensures Valid()
      ensures Model() == FromPairs(pairs)
      ensures nextId == |pairs|
    {
      order, text, nextId := [], map[], 0;
      new;
      var i := 0;
      while i < |pairs|
        invariant 0 <= i <= |pairs|
        invariant Valid() && Model() == FromPairs(pairs[..i])
      {
        assert pairs[..i + 1][..i] == pairs[..i];
        SetItem(pairs[i].0, pairs[i].1);
        i := i + 1;
      }
      assert pairs[..i] == pairs;
      nextId := |pairs|;
    }

    /** `self[k] = v` */
    method SetItem(k: int, v: string)
      requires Valid()
      modifies this
      ensures Valid()
      ensures Model() == Put(old(Model()), k, v)
      ensures nextId == old(nextId)
    {
      if k !in text {
        order := order + [k];
      }
      text := text[k := v];
    }

    /**
      Store `v` under the current counter, then advance the counter. When
      the counter named no chunk yet, the new chunk is the last one.
    */
    method Append(v: string)
      requires Valid()
      modifies this
      ensures Valid()
      ensures Model() == Put(old(Model()), old(nextId), v)
      ensures nextId == old(nextId) + 1
      ensures old(nextId) !in old(text) ==> GetLastKey() == old(nextId)
    {
      SetItem(nextId, v);
      IncrementId();
    }

    /**
      Remove the most recently inserted chunk and return its text. On an
      empty register the source raises `KeyError`; here that is `None`,
      with nothing changed.
    */
    method Pop() returns (r: Option<string>)
      requires Valid()
      modifies this
      ensures Valid()
      ensures nextId == old(nextId)
      ensures old(order) == [] ==> r == None && order == old(order) && text == old(text)
      ensures old(order) != [] ==> r == Some(LastText(old(Model()))) && Model() == Popped(old(Model()))
    {
      if |order| == 0 {
        return None;
      }
      var k := order[|order| - 1];
      r := Some(text[k]);
      order := order[..|order| - 1];
      text := text - {k};
    }

    /** The first key in insertion order, or -1 when the register is empty. */
    function GetFirstKey(): (k: int)
      reads this
      requires Valid()
      ensures k == FirstKey(Model())
    {
      FirstKey(Model())
    }

    /** The last key in insertion order, or -1 when the register is empty. */
    function GetLastKey(): (k: int)
      reads this
      requires Valid()
      ensures k == LastKey(Model())
    {
      LastKey(Model())
    }

    method IncrementId()
      requires Valid()
      modifies this`nextId
      ensures Valid()
      ensures nextId == old(nextId) + 1
    {
      nextId := nextId + 1;
    }

    /** The id the next `Append` stores under. */
    function GetNextId(): (id: int)
      reads this
      ensures id == nextId
    {
      nextId
    }

    method SetNextId(x: int)
      requires Valid()
      modifies this`nextId
      ensures Valid()
      ensures nextId == x
    {
      nextId := x;
    }
  }

  /**
    Setting the counter and reading it back gives the value set, and the
    stored chunks are untouched.
  */
  method SetThenGetNextId(reg: StoryRegister, x: int) returns (got: int)
    requires reg.Valid()
    modifies reg
    ensures reg.Valid() && reg.Model() == old(reg.Model())
    ensures got == x && reg.GetNextId() == x
  {
    reg.SetNextId(x);
    got := reg.GetNextId();
  }
}
