/**
 The growable bit set over arena handles.  Growing takes a number of bits but is
 given a number of words, so an insertion can index past the end: this is
 exactly when.
 */
module ArenaSets {
  import opened Wrappers

  const BITS: nat := 64

  type Handle = nat

  /** A word as the set of its one bits. */
  type Word = set<nat>

  function WordsFor(bits: nat): nat {
    (bits + BITS - 1) / BITS
  }

  /** The number of words once `insert` has made room for `key`. */
  function WordsAfterReserve(words: nat, key: Handle): nat {
    var wanted := WordsFor(key / BITS + 1);
    if words < wanted then wanted else words
  }

  /** The storage of a set: its number of words, and whether an insertion has gone past them. */
  datatype Room = Room(words: nat, overflowed: bool)

  const NEW_ROOM := Room(0, false)

  function Inserted(room: Room, key: Handle): Room {
    var words := WordsAfterReserve(room.words, key);
    Room(words, room.overflowed || key / BITS >= words)
  }

  /** All handles lie in the first word. */
  ghost predicate Fits(keys: set<Handle>) {
    forall key :: key in keys ==> key < BITS
  }

  /** Storage of a set made without capacity, after inserting `keys` in any order and any number of times. */
  ghost predicate RoomFor(room: Room, keys: set<Handle>) {
    (room.overflowed <==> !Fits(keys)) && (!room.overflowed ==> room.words <= 1)
  }

  /** Such a set overflows with the first handle outside its first word. */
  lemma InsertKeepsRoom(room: Room, keys: set<Handle>, key: Handle)
    requires RoomFor(room, keys)
    ensures RoomFor(Inserted(room, key), keys + {key})
  {
    assert key in keys + {key};
    assert Fits(keys + {key}) <==> Fits(keys) && key < BITS by {
      if Fits(keys + {key}) {
        assert forall k :: k in keys ==> k in keys + {key};
      }
    }
  }

  class ArenaSet {
    var words: seq<Word>

    ghost predicate Contains(key: Handle)
      reads this
    {
      key / BITS < |words| && key % BITS in words[key / BITS]
    }

    constructor WithCapacity(capacity: nat)
      ensures |words| == WordsFor(capacity) && forall key: Handle :: !Contains(key)
    {
      words := seq(WordsFor(capacity), _ => {});
    }

    method Reserve(capacity: nat)
      modifies this
      ensures |words| == if |old(words)| < WordsFor(capacity) then WordsFor(capacity) else |old(words)|
      ensures forall key: Handle :: Contains(key) <==> old(Contains(key))
    {
      var wanted := WordsFor(capacity);
      if |words| < wanted {
        words := words + seq(wanted - |words|, _ => {});
      }
    }

    /** Whether `key` was absent before, or `None` where the source panics on an index out of range. */
    method Insert(key: Handle) returns (absent: Option<bool>)
      modifies this
      ensures absent.Some? <==> key / BITS < WordsAfterReserve(|old(words)|, key)
      ensures absent.Some? ==> absent.value == !old(Contains(key))
      ensures absent.Some? ==> forall k: Handle :: Contains(k) <==> old(Contains(k)) || k == key
      ensures Room(|words|, absent.None?) == Inserted(Room(|old(words)|, false), key)
    {
      var index, bit := key / BITS, key % BITS;
      Reserve(index + 1);
      if index >= |words| {
        return None;
      }
      var wasThere := bit in words[index];
      words := words[index := words[index] + {bit}];
      forall k: Handle ensures Contains(k) <==> old(Contains(k)) || k == key {
        assert k == k / BITS * BITS + k % BITS && key == index * BITS + bit;
      }
      return Some(!wasThere);
    }
  }

  /** A set made without a capacity takes exactly the handles of its first word. */
  lemma FreshSetTakesOneWord(key: Handle)
    ensures key / BITS < WordsAfterReserve(WordsFor(0), key) <==> key < BITS
  {
  }

  /** A set made for `capacity` handles takes all of them and never grows. */
  lemma CapacityIsEnough(capacity: nat, key: Handle)
    requires key < capacity
    ensures Inserted(Room(WordsFor(capacity), false), key) == Room(WordsFor(capacity), false)
  {
  }

  /** In general the next word can only be added while there are too few words to notice. */
  lemma InsertSucceedsIff(words: nat, key: Handle)
    ensures key / BITS < WordsAfterReserve(words, key) <==> key / BITS < words || key < BITS
  {
  }
}
