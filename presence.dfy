/**
 * The presence predicate `is_hhkb_connected` (src-tauri/src/main.rs:55-59).
 *
 * The operating system's enumeration of connected Bluetooth LE devices is an
 * input: either the query failed, or it produced one entry per device, whose
 * name lookup either resolved to a string or failed. The predicate scans the
 * entries left to right and stops at the first name that starts with the
 * fixed prefix; a failed name lookup that the scan reaches aborts the whole
 * monitor (an `.unwrap()` on an error).
 */
module Presence {
  import opened Wrappers

  /** The name prefix that identifies the keyboard. */
  const PREFIX: string := "HHKB-Hybrid_"

  /** Why a poll cycle aborts: each is an `.unwrap()` on an error in the source. */
  datatype Fault = EnumerationFailed | NameLookupFailed | IconUpdateFailed

  /** The result of reading one device's `Name()`. */
  datatype DeviceName = Resolved(name: string) | Unresolved

  /** The result of `connected_btle_devices()`: the device list, or a failed query. */
  datatype Enumeration = Listed(devices: seq<DeviceName>) | ListFailed

  /** Rust's `str::starts_with` for a string prefix: exact and case-sensitive. */
  predicate StartsWith(s: string, p: string) {
    |p| <= |s| && s[..|p|] == p
  }

  /** The name of entry `i` resolved and carries the prefix. */
  predicate MatchesAt(ds: seq<DeviceName>, i: int)
    requires 0 <= i < |ds|
  {
    ds[i].Resolved? && StartsWith(ds[i].name, PREFIX)
  }

  predicate AllResolved(ds: seq<DeviceName>) {
    forall i :: 0 <= i < |ds| ==> ds[i].Resolved?
  }

  /** The entries of a device list whose every name lookup succeeded. */
  function FromNames(names: seq<string>): (ds: seq<DeviceName>)
    ensures |ds| == |names| && AllResolved(ds)
    ensures forall i :: 0 <= i < |names| ==> ds[i] == Resolved(names[i])
  {
    seq(|names|, i requires 0 <= i < |names| => Resolved(names[i]))
  }

  /**
   * The scan over the device list: it looks at the entries left to right,
   * stops with `true` at the first name that carries the prefix without
   * looking at the rest, and aborts when it reaches a failed name lookup.
   */
  function AnyMatch(ds: seq<DeviceName>): (r: Result<bool, Fault>)
  {
    if ds == [] then Ok(false)
    else match ds[0]
      case Unresolved => Err(NameLookupFailed)
      case Resolved(n) => if StartsWith(n, PREFIX) then Ok(true) else AnyMatch(ds[1..])
  }

  /** `is_hhkb_connected()` over the given enumeration. */
  function IsHhkbConnected(e: Enumeration): (r: Result<bool, Fault>)
    ensures e.ListFailed? ==> r == Err(EnumerationFailed)
    ensures e.Listed? ==> (r == Ok(true) <==>
      exists i :: 0 <= i < |e.devices| && MatchesAt(e.devices, i) && AllResolved(e.devices[..i]))
    ensures e.Listed? ==> (r == Ok(false) <==>
      AllResolved(e.devices) && forall i :: 0 <= i < |e.devices| ==> !MatchesAt(e.devices, i))
    ensures e.Listed? && r.Err? ==> r == Err(NameLookupFailed)
  {
    match e
    case ListFailed => Err(EnumerationFailed)
    case Listed(ds) => AnyMatchMeaning(ds); AnyMatch(ds)
  }

  /**
   * What the scan decides, stated without the scan: `true` exactly when some
   * entry matches and every entry before it resolved; `false` exactly when
   * every entry resolved and none matches; otherwise a name lookup fault.
   */
  lemma {:induction false} AnyMatchMeaning(ds: seq<DeviceName>)
    ensures AnyMatch(ds) == Ok(true) <==>
      exists i :: 0 <= i < |ds| && MatchesAt(ds, i) && AllResolved(ds[..i])
    ensures AnyMatch(ds) == Ok(false) <==>
      AllResolved(ds) && forall i :: 0 <= i < |ds| ==> !MatchesAt(ds, i)
    ensures AnyMatch(ds).Err? ==> AnyMatch(ds) == Err(NameLookupFailed)
  {
    if ds != [] {
      AnyMatchMeaning(ds[1..]);
      var tail := ds[1..];
      if ds[0].Resolved? {
        // an index of the tail is one less than the same entry of ds
        forall i | 1 <= i <= |ds| ensures ds[..i] == [ds[0]] + tail[..i - 1] {
          assert ds[..i] == [ds[0]] + tail[..i - 1];
        }
        if AnyMatch(ds) == Ok(true) && !MatchesAt(ds, 0) {
          var j :| 0 <= j < |tail| && MatchesAt(tail, j) && AllResolved(tail[..j]);
          assert MatchesAt(ds, j + 1) && AllResolved(ds[..j + 1]);
        }
        if exists i :: 0 <= i < |ds| && MatchesAt(ds, i) && AllResolved(ds[..i]) {
          var i :| 0 <= i < |ds| && MatchesAt(ds, i) && AllResolved(ds[..i]);
          if !MatchesAt(ds, 0) {
            assert ds[..i] == [ds[0]] + tail[..i - 1];
            var pre := tail[..i - 1];
            assert AllResolved(pre) by {
              forall k | 0 <= k < |pre| ensures pre[k].Resolved? {
                assert pre[k] == ds[..i][k + 1];
              }
            }
            assert MatchesAt(tail, i - 1);
          }
        }
        if AllResolved(ds) && forall i :: 0 <= i < |ds| ==> !MatchesAt(ds, i) {
          assert !MatchesAt(ds, 0);
          assert forall i :: 0 <= i < |tail| ==> !MatchesAt(tail, i) by {
            forall i | 0 <= i < |tail| ensures !MatchesAt(tail, i) {
              assert !MatchesAt(ds, i + 1);
            }
          }
          assert AllResolved(tail) by {
            forall i | 0 <= i < |tail| ensures tail[i].Resolved? {
              assert ds[i + 1].Resolved?;
            }
          }
        }
      } else {
        assert !AllResolved(ds);
        assert forall i :: 0 < i < |ds| ==> !AllResolved(ds[..i]) by {
          forall i | 0 < i < |ds| ensures !AllResolved(ds[..i]) {
            assert ds[..i][0] == ds[0];
          }
        }
      }
    }
  }

  /**
   * When every name lookup succeeds, the monitor sees the keyboard exactly
   * when some connected device's name starts with the prefix.
   */
  lemma PresentIffSomeNameHasPrefix(names: seq<string>)
    ensures IsHhkbConnected(Listed(FromNames(names))) ==
      Ok(exists i :: 0 <= i < |names| && StartsWith(names[i], PREFIX))
  {
    var ds := FromNames(names);
    AnyMatchMeaning(ds);
    if exists i :: 0 <= i < |names| && StartsWith(names[i], PREFIX) {
      var i :| 0 <= i < |names| && StartsWith(names[i], PREFIX);
      assert MatchesAt(ds, i) && AllResolved(ds[..i]);
    } else {
      assert forall i :: 0 <= i < |ds| ==> !MatchesAt(ds, i);
    }
  }

  /** An empty device list never reads as connected. */
  lemma EmptyListIsAbsent()
    ensures IsHhkbConnected(Listed([])) == Ok(false)
  {
  }

  /** The prefix test is exact and case-sensitive. */
  lemma PrefixExamples()
    ensures StartsWith("HHKB-Hybrid_", PREFIX)
    ensures StartsWith("HHKB-Hybrid_ABC123", PREFIX)
    ensures !StartsWith("HHKB-Hybrid", PREFIX)
    ensures !StartsWith("hhkb-hybrid_X", PREFIX)
    ensures !StartsWith("XHHKB-Hybrid_", PREFIX)
  {
    assert "hhkb-hybrid_X"[0] != PREFIX[0];
    assert "XHHKB-Hybrid_"[0] != PREFIX[0];
  }

  /** Scanning a concatenation: the second part is reached only when the first part found nothing. */
  lemma {:induction false} AnyMatchAppend(a: seq<DeviceName>, b: seq<DeviceName>)
    ensures AnyMatch(a + b) == if AnyMatch(a) == Ok(false) then AnyMatch(b) else AnyMatch(a)
  {
    if a == [] {
      assert a + b == b;
    } else {
      assert (a + b)[0] == a[0];
      assert (a + b)[1..] == a[1..] + b;
      AnyMatchAppend(a[1..], b);
    }
  }

  /** Adding a device whose name lacks the prefix, anywhere in the list, changes nothing. */
  lemma NonMatchingNameIsIgnored(a: seq<DeviceName>, n: string, b: seq<DeviceName>)
    requires !StartsWith(n, PREFIX)
    ensures AnyMatch(a + [Resolved(n)] + b) == AnyMatch(a + b)
  {
    AnyMatchAppend(a, [Resolved(n)] + b);
    AnyMatchAppend([Resolved(n)], b);
    AnyMatchAppend(a, b);
    assert [Resolved(n)][1..] == [];
    assert a + [Resolved(n)] + b == a + ([Resolved(n)] + b);
  }

  /** With every name resolved, the order of the devices does not matter. */
  lemma OrderIrrelevant(a: seq<DeviceName>, b: seq<DeviceName>)
    requires AllResolved(a)
    requires multiset(a) == multiset(b)
    ensures AnyMatch(a) == AnyMatch(b)
  {
    AnyMatchMeaning(a);
    AnyMatchMeaning(b);
    assert AllResolved(b) by {
      forall j | 0 <= j < |b| ensures b[j].Resolved? {
        assert b[j] in multiset(a);
        var i :| 0 <= i < |a| && a[i] == b[j];
      }
    }
    if exists i :: 0 <= i < |a| && MatchesAt(a, i) {
      var i :| 0 <= i < |a| && MatchesAt(a, i);
      assert a[i] in multiset(b);
      var j :| 0 <= j < |b| && b[j] == a[i];
      assert MatchesAt(b, j);
    } else if exists j :: 0 <= j < |b| && MatchesAt(b, j) {
      var j :| 0 <= j < |b| && MatchesAt(b, j);
      assert b[j] in multiset(a);
      var i :| 0 <= i < |a| && a[i] == b[j];
      assert MatchesAt(a, i);
    }
  }

  /**
   * With a failed name lookup in the list, order does matter: the scan stops
   * at a match before it reaches the failed entry, and aborts at the failed
   * entry when it comes first.
   */
  lemma UnresolvedAfterMatchIsNeverRead()
    ensures AnyMatch([Resolved("HHKB-Hybrid_1"), Unresolved]) == Ok(true)
    ensures AnyMatch([Unresolved, Resolved("HHKB-Hybrid_1")]) == Err(NameLookupFailed)
  {
    assert StartsWith("HHKB-Hybrid_1", PREFIX);
  }
}
