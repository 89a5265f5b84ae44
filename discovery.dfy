/**
 * Choice of the device to connect to, the loop of `discover`
 * (mario.py:39-44): the first scanned device, in scan order, whose name is
 * present, non-empty and contains "Mario" (case-sensitive). The scan itself
 * is left to the Bluetooth stack; this module sees its result as a sequence.
 */
module Discovery {
  import opened Wrappers

  /** The name fragment of the toy. */
  const Marker := "Mario"

  /** What the scan reports of one device. */
  datatype Device = Device(address: string, name: Option<string>)

  /** Python's `p in s` on strings: `p` occurs in `s` as a contiguous substring. */
  function Contains(s: string, p: string): bool
    decreases |s|
  {
    if |s| < |p| then false
    else if s[..|p|] == p then true
    else Contains(s[1..], p)
  }

  /** The occurrences `Contains` looks for. */
  ghost predicate OccursAt(s: string, p: string, i: int) {
    0 <= i <= |s| - |p| && s[i..i + |p|] == p
  }

  /** `Contains` holds exactly when the pattern occurs at some offset. */
  lemma {:induction false} ContainsSpec(s: string, p: string)
    ensures Contains(s, p) <==> exists i :: OccursAt(s, p, i)
    decreases |s|
  {
    if |s| < |p| {
    } else if s[..|p|] == p {
      assert OccursAt(s, p, 0);
    } else {
      ContainsSpec(s[1..], p);
      if Contains(s[1..], p) {
        var i :| OccursAt(s[1..], p, i);
        assert s[1..][i..i + |p|] == s[i + 1..i + 1 + |p|];
        assert OccursAt(s, p, i + 1);
      } else {
        forall i | OccursAt(s, p, i)
          ensures false
        {
          assert i != 0;
          assert s[1..][i - 1..i - 1 + |p|] == s[i..i + |p|];
          assert OccursAt(s[1..], p, i - 1);
        }
      }
    }
  }

  /** The test `d.name and "Mario" in d.name`. */
  predicate IsMario(d: Device) {
    d.name.Some? && d.name.value != "" && Contains(d.name.value, Marker)
  }

  /** Device `k` is the first in scan order that matches. */
  predicate IsFirstMario(devices: seq<Device>, k: int) {
    0 <= k < |devices| && IsMario(devices[k]) && forall j :: 0 <= j < k ==> !IsMario(devices[j])
  }

  /** The scan order loop: the first matching device, or `None` when none matches. */
  method Discover(devices: seq<Device>) returns (r: Option<Device>)
    ensures r.None? <==> forall j :: 0 <= j < |devices| ==> !IsMario(devices[j])
    ensures r.Some? ==> exists k :: IsFirstMario(devices, k) && devices[k] == r.value
  {
    for i := 0 to |devices|
      invariant forall j :: 0 <= j < i ==> !IsMario(devices[j])
    {
      if IsMario(devices[i]) {
        return Some(devices[i]);
      }
    }
    return None;
  }

  /** A name matches exactly when it holds "Mario" somewhere; the emptiness test never decides. */
  lemma IsMarioSpec(d: Device)
    ensures IsMario(d) <==> d.name.Some? && exists i :: OccursAt(d.name.value, Marker, i)
  {
    if d.name.Some? {
      ContainsSpec(d.name.value, Marker);
    }
  }
}
