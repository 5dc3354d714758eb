/** Keys of the form A-0001 for rows that come without one. */
module ExternalKeys {
  import opened JsText
  import opened Decimals

  const PREFIX := "A-"
  const PAD: nat := 4
  /** Up to here JavaScript numbers count without gaps. */
  const MAX_SAFE: nat := 0x20_0000_0000_0000

  /** The number of a generated key, by `/^A-(\d+)$/`; 0 for any other key. */
  function KeyNumber(key: Option<string>): nat {
    if key.Some? && PREFIX < key.value && AllDigits(key.value[2..]) then Read(key.value[2..]) else 0
  }

  function GeneratedKey(n: nat): string {
    PREFIX + PadStart(Print(n), PAD)
  }

  /** The generated key of a number carries that number, past four digits as well. */
  lemma KeyNumberOfGenerated(n: nat)
    ensures KeyNumber(Some(GeneratedKey(n))) == n
  {
    hide Print, PadStart, Read;
    var padded := PadStart(Print(n), PAD);
    ReadPadded(Print(n), PAD);
    ReadPrint(n);
    assert GeneratedKey(n)[2..] == padded;
    PaddedNotEmpty(Print(n), PAD);
  }

  /** The keys with a number are "A-" and digits, however many; all others have none. */
  lemma KeyNumberExactly(key: Option<string>)
    ensures forall d | d != "" && AllDigits(d) && key == Some("A-" + d) :: KeyNumber(key) == Read(d)
    ensures (forall d | d != "" && AllDigits(d) :: key != Some("A-" + d)) ==> KeyNumber(key) == 0
  {
    if key.Some? && PREFIX < key.value { assert key.value == "A-" + key.value[2..]; }
    forall d | d != "" && AllDigits(d) && key == Some("A-" + d) ensures KeyNumber(key) == Read(d) {
      assert key.value[2..] == d;
    }
  }

  lemma {:induction false} PaddedNotEmpty(s: string, width: nat)
    requires s != ""
    ensures PadStart(s, width) != ""
    decreases width - |s|
  {
    if |s| < width { PaddedNotEmpty("0" + s, width); }
  }

  /** The highest number among existing keys. */
  function Highest(keys: seq<Option<string>>): nat {
    if keys == [] then 0 else
    var h, n := Highest(keys[..|keys| - 1]), KeyNumber(keys[|keys| - 1]);
    if n > h then n else h
  }

  lemma {:induction false} HighestBounds(keys: seq<Option<string>>, k: nat)
    requires k < |keys|
    ensures KeyNumber(keys[k]) <= Highest(keys)
  {
    if k < |keys| - 1 { HighestBounds(keys[..|keys| - 1], k); }
  }

  /** A key numbered above all existing ones is not among them. */
  lemma GeneratedIsFresh(keys: seq<Option<string>>, n: nat)
    requires n > Highest(keys)
    ensures Some(GeneratedKey(n)) !in keys
  {
    if Some(GeneratedKey(n)) in keys {
      var k :| 0 <= k < |keys| && keys[k] == Some(GeneratedKey(n));
      HighestBounds(keys, k);
      KeyNumberOfGenerated(n);
    }
  }

  lemma GeneratedInjective(m: nat, n: nat)
    ensures GeneratedKey(m) == GeneratedKey(n) <==> m == n
  {
    KeyNumberOfGenerated(m);
    KeyNumberOfGenerated(n);
  }

  /** The closure of createExternalKeyAllocator: its one variable, raised by every draw. */
  class KeyAllocator {
    var highest: nat

    constructor (existingKeys: seq<Option<string>>)
      requires Highest(existingKeys) < MAX_SAFE
      ensures highest == Highest(existingKeys)
    {
      hide KeyNumber;
      var h := 0;
      for k := 0 to |existingKeys|
        invariant h == Highest(existingKeys[..k])
      {
        assert existingKeys[..k + 1][..k] == existingKeys[..k];
        var value := KeyNumber(existingKeys[k]);
        if value > h { h := value; }
      }
      assert existingKeys[..|existingKeys|] == existingKeys;
      highest := h;
    }

    method Next() returns (key: string)
      requires highest + 1 < MAX_SAFE
      modifies this
      ensures highest == old(highest) + 1
      ensures key == GeneratedKey(highest)
    {
      highest := highest + 1;
      key := PREFIX + PadStart(Print(highest), PAD);
    }
  }

  /** The keys of `draws` draws, in order. */
  function Draws(highest: nat, draws: nat): (keys: seq<string>)
    ensures |keys| == draws
    ensures forall k | 0 <= k < draws :: keys[k] == GeneratedKey(highest + k + 1)
  {
    if draws == 0 then [] else Draws(highest, draws - 1) + [GeneratedKey(highest + draws)]
  }

  /** Any number of draws: fresh, pairwise distinct, and in strictly increasing number. */
  lemma DrawsAreFresh(existing: seq<Option<string>>, draws: nat, i: nat, j: nat)
    requires i <= j < draws && Highest(existing) + draws < MAX_SAFE
    ensures
      var keys := Draws(Highest(existing), draws);
      && Some(keys[i]) !in existing
      && (keys[i] == keys[j] <==> i == j)
      && (i < j ==> KeyNumber(Some(keys[i])) < KeyNumber(Some(keys[j])))
      && KeyNumber(Some(keys[i])) > Highest(existing)
  {
    hide GeneratedKey, KeyNumber, Draws, Highest;
    var h := Highest(existing);
    var keys := Draws(h, draws);
    assert keys[i] == GeneratedKey(h + i + 1) && keys[j] == GeneratedKey(h + j + 1);
    GeneratedIsFresh(existing, h + i + 1);
    GeneratedInjective(h + i + 1, h + j + 1);
    KeyNumberOfGenerated(h + i + 1);
    KeyNumberOfGenerated(h + j + 1);
  }

  /** Whether a stored key counts: null and the empty string do not. */
  predicate IsKey(key: Option<string>) {
    key.Some? && key.value != ""
  }

  /** The backfill of a plan: rows without a key draw one, in order; the others keep theirs. */
  method NumberRows(keys: seq<Option<string>>) returns (numbered: seq<Option<string>>)
    requires Highest(keys) + |keys| < MAX_SAFE
    ensures |numbered| == |keys|
    ensures forall k | 0 <= k < |keys| :: if IsKey(keys[k]) then numbered[k] == keys[k]
                                          else numbered[k].Some? && numbered[k] !in keys
    ensures forall i, j | 0 <= i < j < |keys| && numbered[i] == numbered[j] ::
              IsKey(keys[i]) && IsKey(keys[j]) && keys[i] == keys[j]
  {
    hide GeneratedKey, KeyNumber, Highest;
    var nextExternalKey := new KeyAllocator(keys);
    numbered := [];
    for k := 0 to |keys|
      invariant |numbered| == k
      invariant Highest(keys) <= nextExternalKey.highest <= Highest(keys) + k
      invariant forall i | 0 <= i < k :: if IsKey(keys[i]) then numbered[i] == keys[i]
                                         else numbered[i].Some? && numbered[i] !in keys
      invariant forall i | 0 <= i < k && !IsKey(keys[i]) ::
                  exists n: nat :: n <= nextExternalKey.highest && numbered[i] == Some(GeneratedKey(n))
      invariant forall i, j | 0 <= i < j < k && numbered[i] == numbered[j] ::
                  IsKey(keys[i]) && IsKey(keys[j]) && keys[i] == keys[j]
    {
      ghost var before := numbered;
      if IsKey(keys[k]) {
        assert keys[k] in keys;
        numbered := numbered + [keys[k]];
      } else {
        var key := nextExternalKey.Next();
        GeneratedIsFresh(keys, nextExternalKey.highest);
        forall i | 0 <= i < k ensures before[i] != Some(key) {
          if !IsKey(keys[i]) {
            var n: nat :| n < nextExternalKey.highest && before[i] == Some(GeneratedKey(n));
            GeneratedInjective(n, nextExternalKey.highest);
          } else {
            assert keys[i] in keys;
          }
        }
        numbered := numbered + [Some(key)];
      }
    }
  }
}
