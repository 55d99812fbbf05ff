/** The fixed playlist of the player and the modular index arithmetic that the
    skip controls use to move through it. */
module Playlist {

  /** One playlist entry. The display-only duration text is not modelled. */
  datatype Track = Track(id: int, title: string, artist: string, url: string)

  /** The playlist the component is built with; it never changes at run time. */
  const Tracks: seq<Track> := [
    Track(1, "Haunted Melodies", "Spectral Sounds", "/sample-6s.mp3"),
    Track(2, "Midnight Whispers", "Ghost Orchestra", "/sample-12s.mp3")
  ]

  /** The shipped playlist is non-empty, and its ids, which key the playlist
      rows, and its URLs are pairwise distinct. */
  lemma TracksWellFormed()
    ensures 0 < |Tracks|
    ensures forall j, k :: 0 <= j < k < |Tracks| ==> Tracks[j].id != Tracks[k].id && Tracks[j].url != Tracks[k].url
  {
  }

  /** The index after `i` in a playlist of `n` tracks: `(i + 1) % n`.
      The operand is never negative, so the remainder agrees with JavaScript's. */
  function NextIndex(i: nat, n: nat): (r: nat)
    requires i < n
    ensures r < n
    ensures r == if i == n - 1 then 0 else i + 1
  {
    (i + 1) % n
  }

  /** The index before `i` in a playlist of `n` tracks: `(i - 1 + n) % n`. */
  function PreviousIndex(i: nat, n: nat): (r: nat)
    requires i < n
    ensures r < n
    ensures r == if i == 0 then n - 1 else i - 1
  {
    (i - 1 + n) % n
  }

  /** Skipping forward and then back returns to the starting track. */
  lemma NextThenPrevious(i: nat, n: nat)
    requires i < n
    ensures PreviousIndex(NextIndex(i, n), n) == i
  {
  }

  /** Skipping back and then forward returns to the starting track. */
  lemma PreviousThenNext(i: nat, n: nat)
    requires i < n
    ensures NextIndex(PreviousIndex(i, n), n) == i
  {
  }

  /** The index reached from `i` after `k` skips forward. */
  function Advance(i: nat, n: nat, k: nat): (r: nat)
    requires i < n
    ensures r < n
  {
    if k == 0 then i else NextIndex(Advance(i, n, k - 1), n)
  }

  /** The index reached from `i` after `k` skips back. */
  function Rewind(i: nat, n: nat, k: nat): (r: nat)
    requires i < n
    ensures r < n
  {
    if k == 0 then i else PreviousIndex(Rewind(i, n, k - 1), n)
  }

  /** A positive multiple of `n` is at least `n`. */
  lemma {:induction false} MultipleAtLeast(d: int, n: int)
    requires d > 0 && n > 0
    ensures d * n >= n
  {
    if d > 1 {
      MultipleAtLeast(d - 1, n);
      assert d * n == (d - 1) * n + n;
    }
  }

  /** Characterises `a % n` by any quotient and remainder that fit. */
  lemma ModUnique(a: int, n: int, q: int, m: int)
    requires 0 < n && 0 <= m < n && a == q * n + m
    ensures a % n == m
  {
    var q', m' := a / n, a % n;
    assert q * n - q' * n == (q - q') * n;
    if q > q' {
      MultipleAtLeast(q - q', n);
    } else if q < q' {
      MultipleAtLeast(q' - q, n);
    }
  }

  /** Euclidean division splits `a` into a multiple of `n` and a remainder below `n`. */
  lemma DivMod(a: int, n: int)
    requires 0 < n
    ensures a == (a / n) * n + a % n && 0 <= a % n < n
  {
  }

  /** Adding a multiple of `n` leaves the remainder unchanged. */
  lemma ModShift(a: int, n: int, t: int)
    requires 0 < n
    ensures (a + t * n) % n == a % n
  {
    DivMod(a, n);
    assert (a / n + t) * n == (a / n) * n + t * n;
    ModUnique(a + t * n, n, a / n + t, a % n);
  }

  /** One step forward on the remainder is one step forward on the dividend. */
  lemma ModSucc(a: int, n: int)
    requires 0 < n
    ensures (a + 1) % n == if a % n == n - 1 then 0 else a % n + 1
  {
    var q, m := a / n, a % n;
    if m == n - 1 {
      ModUnique(a + 1, n, q + 1, 0);
    } else {
      ModUnique(a + 1, n, q, m + 1);
    }
  }

  /** One step back on the remainder is one step back on the dividend. */
  lemma ModPred(a: int, n: int)
    requires 0 < n
    ensures (a - 1) % n == if a % n == 0 then n - 1 else a % n - 1
  {
    var q, m := a / n, a % n;
    if m == 0 {
      ModUnique(a - 1, n, q - 1, n - 1);
    } else {
      ModUnique(a - 1, n, q, m - 1);
    }
  }

  /** `k` skips forward from `i` land on `(i + k) mod n`. */
  lemma {:induction false} AdvanceIsOffset(i: nat, n: nat, k: nat)
    requires i < n
    ensures Advance(i, n, k) == (i + k) % n
  {
    if k == 0 {
      ModUnique(i, n, 0, i);
    } else {
      AdvanceIsOffset(i, n, k - 1);
      ModSucc(i + k - 1, n);
    }
  }

  /** `k` skips back from `i` land on `(i - k mod n + n) mod n`. */
  lemma {:induction false} RewindIsOffset(i: nat, n: nat, k: nat)
    requires i < n
    ensures Rewind(i, n, k) == (i - k % n + n) % n
  {
    RewindIsEuclidean(i, n, k);
    DivMod(k, n);
    ModShift(i - k, n, k / n + 1);
    assert (k / n + 1) * n == (k / n) * n + n;
  }

  /** `k` skips back from `i` land on the Euclidean remainder of `i - k`. */
  lemma {:induction false} RewindIsEuclidean(i: nat, n: nat, k: nat)
    requires i < n
    ensures Rewind(i, n, k) == (i - k) % n
  {
    if k == 0 {
      ModUnique(i, n, 0, i);
    } else {
      RewindIsEuclidean(i, n, k - 1);
      ModPred(i - (k - 1), n);
    }
  }

  /** Any number of skips forward is undone by as many skips back. */
  lemma {:induction false} AdvanceThenRewind(i: nat, n: nat, k: nat)
    requires i < n
    ensures Rewind(Advance(i, n, k), n, k) == i
  {
    if k > 0 {
      var j := Advance(i, n, k - 1);
      NextThenPrevious(j, n);
      RewindAfterPrevious(NextIndex(j, n), n, k - 1);
      AdvanceThenRewind(i, n, k - 1);
    }
  }

  /** Rewinding `k + 1` times is one step back followed by `k` more. */
  lemma {:induction false} RewindAfterPrevious(i: nat, n: nat, k: nat)
    requires i < n
    ensures Rewind(i, n, k + 1) == Rewind(PreviousIndex(i, n), n, k)
  {
    if k > 0 {
      RewindAfterPrevious(i, n, k - 1);
    }
  }

  /** Any number of skips back is undone by as many skips forward. */
  lemma RewindThenAdvance(i: nat, n: nat, k: nat)
    requires i < n
    ensures Advance(Rewind(i, n, k), n, k) == i
  {
    RewindIsEuclidean(i, n, k);
    AdvanceIsOffset(Rewind(i, n, k), n, k);
    ModRoundTrip(i, n, k);
  }

  /** Taking `k` away and adding it back modulo `n` returns to `i`. */
  lemma ModRoundTrip(i: int, n: int, k: int)
    requires 0 <= i < n
    ensures ((i - k) % n + k) % n == i
  {
    var q := (i - k) / n;
    DivMod(i - k, n);
    assert (i - k) % n + k == i + (-q) * n;
    ModShift(i, n, -q);
    ModUnique(i, n, 0, i);
  }
}
