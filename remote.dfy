/**
 * Ingestion of the remote side's parameters (`startConnectivityEstablishment`):
 * the remote DTLS fingerprints, folded into a map from hash name to
 * fingerprint, and the remote ICE credentials.
 */
module RemoteParameters {
  import opened Common
  import opened Jingle

  /**
   * The map that `HashMap.put(hash, fingerprint)` over the list, in order,
   * leaves: each entry overwrites any earlier one with the same hash.
   */
  function FingerprintMap(dfpes: seq<DtlsFingerprintExtension>): (r: map<Attr, Attr>)
    ensures forall k :: k in r ==>
              exists i :: 0 <= i < |dfpes| && dfpes[i].hash == k && dfpes[i].fingerprint == r[k]
  {
    if |dfpes| == 0 then map[]
    else
      var last := dfpes[|dfpes| - 1];
      var init := FingerprintMap(dfpes[..|dfpes| - 1]);
      assert forall i :: 0 <= i < |dfpes| - 1 ==> dfpes[..|dfpes| - 1][i] == dfpes[i];
      init[last.hash := last.fingerprint]
  }

  /** The hash names occurring in the list. */
  function HashNames(dfpes: seq<DtlsFingerprintExtension>): set<Attr>
  {
    set i | 0 <= i < |dfpes| :: dfpes[i].hash
  }

  /** The map has a key for each hash name in the list, and no other key. */
  lemma {:induction false} FingerprintMapKeys(dfpes: seq<DtlsFingerprintExtension>)
    ensures FingerprintMap(dfpes).Keys == HashNames(dfpes)
  {
    if |dfpes| > 0 {
      var n := |dfpes| - 1;
      var init := dfpes[..n];
      FingerprintMapKeys(init);
      assert forall i :: 0 <= i < n ==> init[i] == dfpes[i];
      assert HashNames(dfpes) == HashNames(init) + {dfpes[n].hash} by {
        forall h | h in HashNames(dfpes) ensures h in HashNames(init) + {dfpes[n].hash} {
          var i :| 0 <= i < |dfpes| && dfpes[i].hash == h;
          if i < n { assert init[i].hash == h; }
        }
      }
    }
  }

  /** For a repeated hash name, the fingerprint of its last occurrence wins. */
  lemma {:induction false} FingerprintMapLastWins(dfpes: seq<DtlsFingerprintExtension>, i: nat)
    requires i < |dfpes|
    requires forall j :: i < j < |dfpes| ==> dfpes[j].hash != dfpes[i].hash
    ensures dfpes[i].hash in FingerprintMap(dfpes)
    ensures FingerprintMap(dfpes)[dfpes[i].hash] == dfpes[i].fingerprint
  {
    var n := |dfpes| - 1;
    if i < n {
      var init := dfpes[..n];
      assert init[i] == dfpes[i];
      assert forall j :: i < j < n ==> init[j] == dfpes[j];
      FingerprintMapLastWins(init, i);
      assert FingerprintMap(dfpes) == FingerprintMap(init)[dfpes[n].hash := dfpes[n].fingerprint];
    }
  }

  /**
   * The `forEach` loop that fills the `HashMap`: one `put` per fingerprint
   * extension, in list order.
   */
  method CollectRemoteFingerprints(dfpes: seq<DtlsFingerprintExtension>) returns (remote: map<Attr, Attr>)
    ensures remote == FingerprintMap(dfpes)
    ensures remote.Keys == HashNames(dfpes)
    ensures forall i :: 0 <= i < |dfpes| && (forall j :: i < j < |dfpes| ==> dfpes[j].hash != dfpes[i].hash)
                        ==> remote[dfpes[i].hash] == dfpes[i].fingerprint
  {
    remote := map[];
    var k := 0;
    while k < |dfpes|
      invariant 0 <= k <= |dfpes|
      invariant remote == FingerprintMap(dfpes[..k])
    {
      assert dfpes[..k + 1][..k] == dfpes[..k];
      remote := remote[dfpes[k].hash := dfpes[k].fingerprint];
      k := k + 1;
    }
    assert dfpes[..k] == dfpes;
    FingerprintMapKeys(dfpes);
    forall i | 0 <= i < |dfpes| && (forall j :: i < j < |dfpes| ==> dfpes[j].hash != dfpes[i].hash)
      ensures remote[dfpes[i].hash] == dfpes[i].fingerprint
    {
      FingerprintMapLastWins(dfpes, i);
    }
  }
}
