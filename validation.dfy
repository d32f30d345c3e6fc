/**
 * Cleaning of the `barcodes` list of an ingest request: every entry is
 * stripped of surrounding whitespace, entries that are empty afterwards are
 * dropped, and a list with nothing left is rejected.
 */
module Validation {
  import opened Wrappers

  /** The message of the error raised when no barcode survives cleaning. */
  const NoBarcodeMessage := "at least one non-empty barcode is required"

  /** The code points Python's `str.isspace()` accepts, which `str.strip()` removes. */
  predicate IsSpace(c: char)
  {
    var n := c as int;
    (0x09 <= n <= 0x0D) || (0x1C <= n <= 0x20) || n == 0x85 || n == 0xA0 ||
    n == 0x1680 || (0x2000 <= n <= 0x200A) || n == 0x2028 || n == 0x2029 ||
    n == 0x202F || n == 0x205F || n == 0x3000
  }

  /** A string made of whitespace only (the empty string included). */
  predicate Blank(s: string)
  {
    forall k :: 0 <= k < |s| ==> IsSpace(s[k])
  }

  /** Drops the leading whitespace of `s`. */
  function TrimStart(s: string): (r: string)
    ensures |r| <= |s| && r == s[|s| - |r|..]
    ensures forall k :: 0 <= k < |s| - |r| ==> IsSpace(s[k])
    ensures r == [] || !IsSpace(r[0])
  {
    if s != [] && IsSpace(s[0]) then TrimStart(s[1..]) else s
  }

  /** Drops the trailing whitespace of `s`. */
  function TrimEnd(s: string): (r: string)
    ensures |r| <= |s| && r == s[..|r|]
    ensures forall k :: |r| <= k < |s| ==> IsSpace(s[k])
    ensures r == [] || !IsSpace(r[|r| - 1])
  {
    if s != [] && IsSpace(s[|s| - 1]) then TrimEnd(s[..|s| - 1]) else s
  }

  /** A string that `Strip` leaves alone: non-empty, with no whitespace at either end. */
  predicate IsStripped(s: string)
  {
    s != [] && !IsSpace(s[0]) && !IsSpace(s[|s| - 1])
  }

  /** The first `n` characters of `s`, all whitespace, form a blank prefix. */
  lemma BlankPrefix(s: string, n: nat)
    requires n <= |s|
    requires forall k :: 0 <= k < n ==> IsSpace(s[k])
    ensures Blank(s[..n])
  {
    forall k | 0 <= k < n ensures IsSpace(s[..n][k]) {
      assert s[..n][k] == s[k];
    }
  }

  /** The characters of `s` from `n` on, all whitespace, form a blank suffix. */
  lemma BlankSuffix(s: string, n: nat)
    requires n <= |s|
    requires forall k :: n <= k < |s| ==> IsSpace(s[k])
    ensures Blank(s[n..])
  {
    forall k | 0 <= k < |s| - n ensures IsSpace(s[n..][k]) {
      assert s[n..][k] == s[n + k];
    }
  }

  /**
   * Cutting a whitespace-only prefix off `s` (leaving `t`) and then a
   * whitespace-only suffix off `t` (leaving `r`) leaves a slice of `s` with
   * only whitespace on either side.
   */
  lemma SliceBetweenBlanks(s: string, t: string, r: string)
    requires |t| <= |s| && t == s[|s| - |t|..]
    requires forall k :: 0 <= k < |s| - |t| ==> IsSpace(s[k])
    requires |r| <= |t| && r == t[..|r|]
    requires forall k :: |r| <= k < |t| ==> IsSpace(t[k])
    ensures exists i, j :: 0 <= i <= j <= |s| && r == s[i..j] && Blank(s[..i]) && Blank(s[j..])
  {
    var i := |s| - |t|;
    var j := i + |r|;
    assert r == s[i..j];
    BlankPrefix(s, i);
    BlankSuffix(t, |r|);
    assert s[j..] == t[|r|..];
  }

  /**
   * Python's `s.strip()`: the slice of `s` left after removing the
   * whitespace at both ends; it is empty exactly when `s` is all whitespace.
   */
  function Strip(s: string): (r: string)
    ensures exists i, j :: 0 <= i <= j <= |s| && r == s[i..j] && Blank(s[..i]) && Blank(s[j..])
    ensures r == [] || IsStripped(r)
    ensures r == [] <==> Blank(s)
  {
    var t := TrimStart(s);
    SliceBetweenBlanks(s, t, TrimEnd(t));
    assert TrimEnd(t) == [] ==> t == [];
    TrimEnd(t)
  }

  /** Stripping is idempotent. */
  lemma StripIdempotent(s: string)
    ensures Strip(Strip(s)) == Strip(s)
  {
  }

  /** Strips every entry and keeps the non-blank ones, in their original order. */
  function Clean(v: seq<string>): (r: seq<string>)
    ensures |r| <= |v|
    ensures forall k :: 0 <= k < |r| ==> IsStripped(r[k])
  {
    if v == [] then []
    else
      var n := |v| - 1;
      Clean(v[..n]) + (if v[n] != [] && Strip(v[n]) != [] then [Strip(v[n])] else [])
  }

  /** The indices of `v` whose entries survive cleaning, in increasing order. */
  function Kept(v: seq<string>): (ks: seq<nat>)
  {
    if v == [] then []
    else
      var n := |v| - 1;
      Kept(v[..n]) + (if !Blank(v[n]) then [n] else [])
  }

  /** One step of `Clean` and `Kept`: the last entry is kept or dropped on its own. */
  lemma CleanSnoc(v: seq<string>)
    requires v != []
    ensures var n := |v| - 1; var keep := !Blank(v[n]);
      && Clean(v) == Clean(v[..n]) + (if keep then [Strip(v[n])] else [])
      && Kept(v) == Kept(v[..n]) + (if keep then [n] else [])
  {
  }

  /** Cleaning leaves one entry per surviving index. */
  lemma {:induction false} CleanLength(v: seq<string>)
    ensures |Clean(v)| == |Kept(v)|
  {
    if v != [] {
      CleanSnoc(v);
      CleanLength(v[..|v| - 1]);
    }
  }

  /** The surviving indices are indices of `v`, in strictly increasing order. */
  lemma {:induction false} KeptIncreasing(v: seq<string>)
    ensures forall k :: 0 <= k < |Kept(v)| ==> Kept(v)[k] < |v|
    ensures forall i, j :: 0 <= i < j < |Kept(v)| ==> Kept(v)[i] < Kept(v)[j]
  {
    if v != [] {
      var n := |v| - 1;
      var kw := Kept(v[..n]);
      KeptIncreasing(v[..n]);
      assert Kept(v) == kw + (if !Blank(v[n]) then [n] else []);
      forall i, j | 0 <= i < j < |Kept(v)|
        ensures Kept(v)[i] < Kept(v)[j]
      {
        if j == |kw| {
          assert Kept(v)[i] == kw[i] < n;
        }
      }
    }
  }

  /** The k-th cleaned barcode is the stripped entry at the k-th surviving index. */
  lemma {:induction false} CleanAt(v: seq<string>, k: nat)
    requires k < |Kept(v)|
    ensures Kept(v)[k] < |v| && k < |Clean(v)| && Clean(v)[k] == Strip(v[Kept(v)[k]])
  {
    var n := |v| - 1;
    var w := v[..n];
    CleanSnoc(v);
    CleanLength(w);
    if k < |Kept(w)| {
      CleanAt(w, k);
      assert Kept(v)[k] == Kept(w)[k];
      assert w[Kept(w)[k]] == v[Kept(w)[k]];
    }
  }

  /** Appending index `n` to `ks` when `keep` holds: what becomes of the membership of `j`. */
  lemma MemberAfterSnoc(ks: seq<nat>, n: nat, keep: bool, j: int)
    ensures j in ks + (if keep then [n] else []) <==> j in ks || (keep && j == n)
  {
  }

  /** An index survives cleaning exactly when its entry is not all whitespace. */
  lemma {:induction false} KeptExactlyNonBlank(v: seq<string>, j: int)
    requires 0 <= j < |v|
    ensures j in Kept(v) <==> !Blank(v[j])
  {
    var n := |v| - 1;
    var w := v[..n];
    var keep := !Blank(v[n]);
    assert Kept(v) == Kept(w) + (if keep then [n] else []);
    MemberAfterSnoc(Kept(w), n, keep, j);
    if j < n {
      KeptExactlyNonBlank(w, j);
      assert w[j] == v[j];
    } else {
      KeptIncreasing(w);
      assert n !in Kept(w);
    }
  }

  /** Cleaning leaves nothing exactly when every entry is blank. */
  lemma CleanEmptyIffAllBlank(v: seq<string>)
    ensures Clean(v) == [] <==> forall j :: 0 <= j < |v| ==> Blank(v[j])
  {
    CleanLength(v);
    if Clean(v) != [] {
      KeptIncreasing(v);
      KeptExactlyNonBlank(v, Kept(v)[0]);
    } else {
      forall j | 0 <= j < |v| ensures Blank(v[j]) {
        KeptExactlyNonBlank(v, j);
      }
    }
  }

  /**
   * The `barcodes` validator: the cleaned list, or the error raised when
   * every entry is blank.
   */
  function EnsureBarcodesNonempty(v: seq<string>): (r: Result<seq<string>, string>)
    ensures r.Failure? <==> forall j :: 0 <= j < |v| ==> Blank(v[j])
    ensures r.Failure? ==> r.error == NoBarcodeMessage
    ensures r.Success? ==> r.value == Clean(v) && r.value != []
  {
    CleanEmptyIffAllBlank(v);
    var cleaned := Clean(v);
    if cleaned == [] then Failure(NoBarcodeMessage) else Success(cleaned)
  }
}
