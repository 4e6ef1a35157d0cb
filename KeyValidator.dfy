/**
 The uniqueness gate: a new key is accepted against the corpus of keys already issued
 in its key-space when the nearest corpus entry is farther away, in edit distance,
 than a threshold. The nearest-neighbour search is an external Levenshtein library;
 it is a parameter here, and its contract is stated as a predicate on what it returns.
 */
module KeyValidator {
  import opened Wrappers

  /** `ClosestString.UsingLevenshtein(key, keys)`: the nearest entry (null is None) and its distance. */
  type ClosestString = (string, seq<string>) -> (Option<string>, int)

  /** `String.IsNullOrEmpty`. */
  predicate IsNullOrEmpty(s: Option<string>)
  {
    s.None? || s.value == ""
  }

  /**
   A null or empty key throws, even when the corpus is empty; a null or empty corpus accepts;
   otherwise the key is rejected exactly when the nearest entry is a non-empty string whose
   distance does not exceed `minimumEditDistance`. The corpus is a value and is not changed.
   */
  function Validate(key: Option<string>, keys: Option<seq<string>>, minimumEditDistance: int,
                    closest: ClosestString): (r: Result<bool, Exception>)
    ensures r.Failure? <==> IsNullOrEmpty(key)
    ensures r.Failure? ==> r.error == ArgumentNull("key")
    ensures !IsNullOrEmpty(key) && (keys.None? || keys.value == []) ==> r == Success(true)
    ensures r == Success(false) <==>
      && !IsNullOrEmpty(key)
      && keys.Some? && keys.value != []
      && !IsNullOrEmpty(closest(key.value, keys.value).0)
      && closest(key.value, keys.value).1 <= minimumEditDistance
  {
    if IsNullOrEmpty(key) then Failure(ArgumentNull("key"))
    else if keys.None? || |keys.value| < 1 then Success(true)
    else
      var (nearest, distance) := closest(key.value, keys.value);
      if !IsNullOrEmpty(nearest) then
        if distance > minimumEditDistance then Success(true) else Success(false)
      else
        Success(true)
  }

  /**
   The contract of the nearest-neighbour search under an edit distance `distance`: the answer
   is an entry of `keys`, paired with its distance to `key`, and no entry is closer.
   */
  predicate IsNearest(answer: (Option<string>, int), key: string, keys: seq<string>,
                      distance: (string, string) -> nat)
  {
    && answer.0.Some?
    && answer.0.value in keys
    && answer.1 == distance(key, answer.0.value)
    && forall e :: e in keys ==> answer.1 <= distance(key, e)
  }

  /**
   When the search honours its contract and no corpus entry is empty, a key is accepted
   exactly when every corpus entry is farther from it than the threshold.
   */
  lemma AcceptedIffEveryEntryFar(key: string, keys: seq<string>, minimumEditDistance: int,
                                 closest: ClosestString, distance: (string, string) -> nat)
    requires key != "" && keys != []
    requires forall e :: e in keys ==> e != ""
    requires IsNearest(closest(key, keys), key, keys, distance)
    ensures Validate(Some(key), Some(keys), minimumEditDistance, closest) == Success(true)
            <==> forall e :: e in keys ==> distance(key, e) > minimumEditDistance
  {
    var (nearest, d) := closest(key, keys);
    if d > minimumEditDistance {
      forall e | e in keys ensures distance(key, e) > minimumEditDistance { }
    } else {
      assert distance(key, nearest.value) <= minimumEditDistance;
    }
  }

  /**
   A key already in the corpus (edit distance 0 to itself) is rejected for every
   non-negative threshold, when only the key itself is at distance 0 from it.
   */
  lemma IssuedKeyRejected(key: string, keys: seq<string>, minimumEditDistance: int,
                          closest: ClosestString, distance: (string, string) -> nat)
    requires key != "" && key in keys && minimumEditDistance >= 0
    requires distance(key, key) == 0
    requires forall e :: e in keys && distance(key, e) == 0 ==> e == key
    requires IsNearest(closest(key, keys), key, keys, distance)
    ensures Validate(Some(key), Some(keys), minimumEditDistance, closest) == Success(false)
  {
    var (nearest, d) := closest(key, keys);
    assert d <= distance(key, key);
    assert nearest.value == key;
  }
}
