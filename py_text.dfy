/**
 * The handful of Python `str` operations the charge substitution relies on,
 * with Python's semantics: slices clamp to the string, `sub in s` is substring
 * search (the empty string occurs everywhere), `strip()` removes the characters
 * `str.isspace` accepts, and `replace(c, '')` deletes every occurrence of `c`.
 */
module PyText {

  function Min(a: int, b: int): int { if a <= b then a else b }

  /** `s[lo:hi]` for non-negative bounds: both ends are clamped to `len(s)`. */
  function Slice(s: string, lo: nat, hi: nat): (r: string)
    ensures |r| == if hi <= lo || |s| <= lo then 0 else Min(hi, |s|) - lo
    ensures forall k :: 0 <= k < |r| ==> r[k] == s[lo + k]
  {
    var a := Min(lo, |s|);
    var b := Min(hi, |s|);
    if b <= a then [] else s[a..b]
  }

  /** `sub` occurs in `s` starting at index `i`. */
  ghost predicate OccursAt(s: string, sub: string, i: int)
  {
    0 <= i && i + |sub| <= |s| && s[i..i + |sub|] == sub
  }

  /** Python's `sub in s`. */
  function Contains(s: string, sub: string): (b: bool)
    ensures b <==> exists i :: OccursAt(s, sub, i)
    decreases |s|
  {
    if |sub| <= |s| && s[..|sub|] == sub then
      assert OccursAt(s, sub, 0);
      true
    else if s == [] then
      false
    else
      var b := Contains(s[1..], sub);
      assert forall i :: OccursAt(s[1..], sub, i) <==> OccursAt(s, sub, i + 1) by {
        forall i ensures OccursAt(s[1..], sub, i) <==> OccursAt(s, sub, i + 1) {
          if 0 <= i && i + |sub| <= |s| - 1 {
            assert s[1..][i..i + |sub|] == s[i + 1..i + 1 + |sub|];
          }
        }
      }
      assert b ==> exists i :: OccursAt(s, sub, i) by {
        if b {
          var i :| OccursAt(s[1..], sub, i);
          assert OccursAt(s, sub, i + 1);
        }
      }
      assert (exists i :: OccursAt(s, sub, i)) ==> b by {
        if exists i :: OccursAt(s, sub, i) {
          var i :| OccursAt(s, sub, i);
          assert i != 0;
          assert OccursAt(s[1..], sub, i - 1);
        }
      }
      b
  }

  /** The characters Python's `str.isspace()` accepts, which `str.strip()` removes. */
  predicate IsSpace(c: char)
  {
    var n := c as int;
    (0x09 <= n <= 0x0D) || (0x1C <= n <= 0x20) || n == 0x85 || n == 0xA0 || n == 0x1680
    || (0x2000 <= n <= 0x200A) || n == 0x2028 || n == 0x2029 || n == 0x202F || n == 0x205F
    || n == 0x3000
  }

  /** The number of whitespace characters `s.lstrip()` removes from the start of `s`. */
  function LeadingSpace(s: string): (n: nat)
    ensures n <= |s|
    ensures forall k :: 0 <= k < n ==> IsSpace(s[k])
    ensures n < |s| ==> !IsSpace(s[n])
  {
    if s != [] && IsSpace(s[0]) then 1 + LeadingSpace(s[1..]) else 0
  }

  /** The number of whitespace characters `s.rstrip()` removes from the end of `s`. */
  function TrailingSpace(s: string): (n: nat)
    ensures n <= |s|
    ensures forall k :: |s| - n <= k < |s| ==> IsSpace(s[k])
    ensures n < |s| ==> !IsSpace(s[|s| - n - 1])
  {
    if s != [] && IsSpace(s[|s| - 1]) then 1 + TrailingSpace(s[..|s| - 1]) else 0
  }

  /** `s.strip()`: `s` without the whitespace at both ends. */
  function Strip(s: string): string
  {
    var lo := LeadingSpace(s);
    if lo == |s| then [] else s[lo..|s| - TrailingSpace(s)]
  }

  /**
   * `strip` leaves the infix `s[lo..hi]` that remains when the whitespace at
   * both ends is removed; it neither starts nor ends with whitespace.
   */
  lemma StripSpec(s: string)
    ensures exists lo, hi ::
              && 0 <= lo <= hi <= |s| && Strip(s) == s[lo..hi]
              && (forall k :: 0 <= k < lo ==> IsSpace(s[k]))
              && (forall k :: hi <= k < |s| ==> IsSpace(s[k]))
    ensures Strip(s) != [] ==> !IsSpace(Strip(s)[0]) && !IsSpace(Strip(s)[|Strip(s)| - 1])
  {
    var lo := LeadingSpace(s);
    var hi := if lo == |s| then lo else |s| - TrailingSpace(s);
    assert lo <= hi && Strip(s) == s[lo..hi] by {
      if lo < |s| {
        assert !IsSpace(s[lo]);
      }
    }
    assert forall k :: hi <= k < |s| ==> IsSpace(s[k]);
  }

  /** `s.replace(c, '')` */
  function RemoveAll(s: string, c: char): string
  {
    if s == [] then []
    else if s[0] == c then RemoveAll(s[1..], c)
    else [s[0]] + RemoveAll(s[1..], c)
  }

  /** `replace(c, '')` deletes every `c` and keeps every other character (the order is `RemoveAllOrder`). */
  lemma {:induction false} RemoveAllSpec(s: string, c: char)
    ensures c !in RemoveAll(s, c)
    ensures multiset(RemoveAll(s, c)) == multiset(s)[c := 0]
    ensures c !in s ==> RemoveAll(s, c) == s
  {
    if s != [] {
      RemoveAllSpec(s[1..], c);
      assert s == [s[0]] + s[1..];
    }
  }

  /**
   * `replace(c, '')` works character by character and keeps the order: a single
   * character is dropped exactly when it is `c`, and the result for a
   * concatenation is the concatenation of the results.
   */
  lemma {:induction false} RemoveAllOrder(a: string, b: string, c: char)
    ensures RemoveAll(a + b, c) == RemoveAll(a, c) + RemoveAll(b, c)
    ensures |a| == 1 ==> RemoveAll(a, c) == if a[0] == c then [] else a
  {
    if a == [] {
      assert a + b == b;
    } else {
      assert (a + b)[1..] == a[1..] + b;
      RemoveAllOrder(a[1..], b, c);
      if |a| == 1 {
        assert RemoveAll(a[1..], c) == [];
        assert a == [a[0]];
      }
    }
  }
}
