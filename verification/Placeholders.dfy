/**
 The search for a free placeholder address "0.0.0.n", shared by the scan (backend/app/scanner/sync.py,
 _find_safe_placeholder_ip) and the start-up repair (backend/app/database/migrations.py,
 _next_free_placeholder_ip).
 */
module Placeholders {
  import opened Wrappers
  import opened Networks

  /** The text "0.0.0.k", which is an address for k below 256 only. */
  function PlaceholderAt(k: nat): Address {
    if k < 256 then V4(k) else OutOfRange(k)
  }

  /** Which placeholder an address is, or -1. */
  function IndexOf(a: Address): int {
    match a
    case V4(bits) => if bits < 256 then bits else -1
    case OutOfRange(n) => if n < 256 then -1 else n
    case Other(_, _) => -1
  }

  ghost function From(used: set<Address>, k: nat): set<Address> {
    set a | a in used && IndexOf(a) >= k
  }

  lemma FromShrinks(used: set<Address>, k: nat)
    requires PlaceholderAt(k) in used
    ensures |From(used, k + 1)| < |From(used, k)|
  {
    var more := From(used, k);
    assert PlaceholderAt(k) in more;
    Fewer(From(used, k + 1), more - {PlaceholderAt(k)});
  }

  lemma Fewer(a: set<Address>, b: set<Address>)
    requires a <= b
    ensures |a| <= |b|
  {
    assert b == a + (b - a) && a !! b - a;
  }

  /** The first free placeholder from number k on; there is one among the first |used| + 1. */
  function FirstFree(used: set<Address>, k: nat): (n: nat)
    ensures k <= n && PlaceholderAt(n) !in used
    ensures forall j :: k <= j < n ==> PlaceholderAt(j) in used
    ensures n - k <= |From(used, k)|
    decreases |From(used, k)|
  {
    if PlaceholderAt(k) !in used then k
    else
      FromShrinks(used, k);
      FirstFree(used, k + 1)
  }

  /** By the pigeonhole principle the search looks at no more candidates than there are used addresses, plus one. */
  lemma FewProbes(used: set<Address>)
    ensures FirstFree(used, 0) <= |used|
  {
    Fewer(From(used, 0), used);
  }

  /** The counting loop. */
  method Search(used: set<Address>) returns (n: nat)
    ensures n == FirstFree(used, 0) && n <= |used|
  {
    n := 0;
    while PlaceholderAt(n) in used
      invariant FirstFree(used, n) == FirstFree(used, 0)
      decreases |From(used, n)|
    {
      FromShrinks(used, n);
      n := n + 1;
    }
    FewProbes(used);
  }

  /** A former address that may be given back: dotted, and not the "offline-" form of older versions. */
  predicate Reusable(former: Option<Address>) {
    former.Some? && match former.value
                 case V4(_) => true
                 case OutOfRange(n) => n < 1000
                 case Other(text, ipLike) => text != "" && !("offline-" <= text) && ipLike
  }

  /** Every IPv4 address may be given back, a placeholder of three digits at most, and text of the dotted shape. */
  lemma ReusableForms(n: nat, text: string, ipLike: bool)
    ensures !Reusable(None) && Reusable(Some(V4(n))) && (Reusable(Some(OutOfRange(n))) <==> n < 1000)
    ensures Reusable(Some(Other(text, ipLike))) <==> ipLike && |text| > 0 && !(|text| >= 8 && text[..8] == "offline-")
  {
    assert "offline-" <= text <==> |text| >= 8 && text[..8] == "offline-";
  }
}
