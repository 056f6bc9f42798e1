/** Deciding whether one object matches: download it, then feed its bytes one
    at a time into a fresh matcher and stop at the first byte that reports a hit. */
module Matching {
  import opened SearchTypes

  /** The stateful matcher of the `rabinkarp` package, seen only through its
      interface. Whatever its internal state, a fresh instance fed the same
      bytes answers the same way, so its answer is a function of the pattern
      and of the bytes consumed so far, which is what `detects` gives. */
  class RabinKarp {
    const pattern: Bytes
    const detects: (Bytes, Bytes) -> bool
    var consumed: Bytes

    constructor (pattern: Bytes, detects: (Bytes, Bytes) -> bool)
      ensures this.pattern == pattern && this.detects == detects
      ensures consumed == []
    {
      this.pattern := pattern;
      this.detects := detects;
      consumed := [];
    }

    /** Consumes one byte and reports whether a hit ends at it. */
    method SearchNextChar(c: Byte) returns (found: bool)
      modifies this
      ensures consumed == old(consumed) + [c]
      ensures found == detects(pattern, consumed)
    {
      consumed := consumed + [c];
      found := detects(pattern, consumed);
    }
  }

  /** The matcher reports a hit on the n-th byte of `body`. */
  predicate HitAfter(env: Env, text: Bytes, body: Bytes, n: nat)
    requires n <= |body|
  {
    env.detects(text, body[..n])
  }

  /** The object matches: its download succeeds and some byte of it makes the
      matcher report a hit. */
  predicate Matches(env: Env, bucket: string, key: string, text: Bytes, size: nat)
  {
    match env.fetch(bucket, key, size)
    case DownloadFailed(_) => false
    case Downloaded(body) => exists n :: 0 < n <= |body| && HitAfter(env, text, body, n)
  }

  /** `found`: a download error counts as no match; otherwise the bytes are fed
      in order and the loop returns at the first hit. The ghost `fed` is the
      number of bytes the matcher consumed. */
  method Found(env: Env, bucket: string, key: string, searchText: Bytes, size: nat)
    returns (hit: bool, ghost fed: nat)
    ensures hit == Matches(env, bucket, key, searchText, size)
    ensures env.fetch(bucket, key, size).DownloadFailed? ==> !hit && fed == 0
    ensures env.fetch(bucket, key, size).Downloaded? ==>
              var body := env.fetch(bucket, key, size).body;
              && fed <= |body|
              && (hit ==> 0 < fed && HitAfter(env, searchText, body, fed))
              && (!hit ==> fed == |body|)
              && (forall n :: 0 < n < fed ==> !HitAfter(env, searchText, body, n))
  {
    var content := env.fetch(bucket, key, size);
    if content.DownloadFailed? {
      return false, 0;
    }
    var result := content.body;
    var rk := new RabinKarp(searchText, env.detects);
    for i := 0 to |result|
      invariant rk.pattern == searchText && rk.detects == env.detects
      invariant rk.consumed == result[..i]
      invariant forall n :: 0 < n <= i ==> !HitAfter(env, searchText, result, n)
    {
      var f := rk.SearchNextChar(result[i]);
      assert rk.consumed == result[..i + 1];
      if f {
        assert HitAfter(env, searchText, result, i + 1);
        return true, i + 1;
      }
    }
    return false, |result|;
  }

  /** `p` is a suffix of `s`. */
  ghost predicate EndsWith(s: Bytes, p: Bytes)
  {
    |p| <= |s| && s[|s| - |p|..] == p
  }

  /** `p` occurs in `s` starting at index `i`. */
  ghost predicate OccursAt(p: Bytes, s: Bytes, i: nat)
  {
    i + |p| <= |s| && s[i..i + |p|] == p
  }

  /** `p` occurs in `s` as a contiguous run of bytes. */
  ghost predicate Occurs(p: Bytes, s: Bytes)
  {
    exists i: nat :: OccursAt(p, s, i)
  }

  /** A hit after the n-th byte, for a matcher that reports a hit exactly
      when the bytes consumed end with the pattern, is an occurrence of the
      pattern ending at that byte. */
  lemma ExactHitIsOccurrence(env: Env, text: Bytes, body: Bytes, n: nat)
    requires |text| <= n <= |body|
    requires env.detects(text, body[..n]) == EndsWith(body[..n], text)
    ensures HitAfter(env, text, body, n) <==> OccursAt(text, body, n - |text|)
  {
    assert body[..n][n - |text|..] == body[n - |text|..n];
  }

  /** What `found` decides, for a matcher that reports a hit exactly when the
      bytes consumed end with the pattern: a non-empty pattern is found iff the
      download succeeds and the pattern occurs in the downloaded bytes. The
      matcher's own code is not part of this model, so this is stated only
      under that assumption about it. */
  lemma ExactMatcherFindsSubstring(env: Env, bucket: string, key: string, text: Bytes, size: nat)
    requires |text| > 0
    requires forall p, s :: env.detects(p, s) == EndsWith(s, p)
    ensures Matches(env, bucket, key, text, size) <==>
              env.fetch(bucket, key, size).Downloaded? &&
              Occurs(text, env.fetch(bucket, key, size).body)
  {
    var d := env.fetch(bucket, key, size);
    if d.Downloaded? {
      var body := d.body;
      if Matches(env, bucket, key, text, size) {
        var n :| 0 < n <= |body| && HitAfter(env, text, body, n);
        assert EndsWith(body[..n], text);
        ExactHitIsOccurrence(env, text, body, n);
      }
      if Occurs(text, body) {
        var i: nat :| OccursAt(text, body, i);
        ExactHitIsOccurrence(env, text, body, i + |text|);
      }
    }
  }
}
