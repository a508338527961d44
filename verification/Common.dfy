/** What several modules share: an optional value, and lists with one entry put in or taken out. */
module Common {
  datatype Option<+T> = None | Some(value: T)

  ghost function Insert(s: seq<nat>, k: nat, x: nat): (r: seq<nat>)
    requires k <= |s|
    ensures |r| == |s| + 1 && r[k] == x
    ensures forall j: nat | j < k :: r[j] == s[j]
    ensures forall j: nat | k < j < |r| :: r[j] == s[j - 1]
  {
    s[..k] + [x] + s[k..]
  }

  ghost function Remove(s: seq<nat>, k: nat): (r: seq<nat>)
    requires k < |s|
    ensures |r| == |s| - 1
    ensures forall j: nat | j < k :: r[j] == s[j]
    ensures forall j: nat | k <= j < |r| :: r[j] == s[j + 1]
  {
    s[..k] + s[k + 1..]
  }

  ghost function IndexOf(s: seq<nat>, x: nat): (k: nat)
    requires x in s
    ensures k < |s| && s[k] == x
  {
    if s[0] == x then 0 else 1 + IndexOf(s[1..], x)
  }
}
