/** memmove of lib/string.c, by bytes and by words, in place on memory that source and destination may share. */
module MemMove {
  import opened VmState

  /** What memmove promises: the destination holds what the source held, and no other byte changes. */
  ghost function Moved(m: seq<Byte>, dst: nat, src: nat, n: nat): (r: seq<Byte>)
    requires src + n <= |m| && dst + n <= |m|
    ensures |r| == |m|
  {
    m[..dst] + m[src..src + n] + m[dst + n..]
  }

  lemma MovedAt(m: seq<Byte>, dst: nat, src: nat, n: nat, i: nat)
    requires src + n <= |m| && dst + n <= |m| && i < |m|
    ensures Moved(m, dst, src, n)[i] == if dst <= i < dst + n then m[src + (i - dst)] else m[i]
  {
  }

  lemma MovedNothing(m: seq<Byte>, dst: nat, src: nat)
    requires src <= |m| && dst <= |m|
    ensures Moved(m, dst, src, 0) == m
  {
  }

  /** A movsb, or *d = *s. */
  method MoveByte(m: array<Byte>, d: nat, s: nat)
    requires s < m.Length && d < m.Length
    modifies m
    ensures m[..] == Moved(old(m[..]), d, s, 1)
  {
    hide Moved;
    ghost var m0 := m[..];
    m[d] := m[s];
    forall i: nat | i < |m0| ensures m[..][i] == Moved(m0, d, s, 1)[i] {
      MovedAt(m0, d, s, 1, i);
    }
  }

  /** A movsl: four bytes are read, then written. */
  method MoveWord(m: array<Byte>, d: nat, s: nat)
    requires s + 4 <= m.Length && d + 4 <= m.Length
    modifies m
    ensures m[..] == Moved(old(m[..]), d, s, 4)
  {
    hide Moved;
    ghost var m0 := m[..];
    m[d], m[d + 1], m[d + 2], m[d + 3] := m[s], m[s + 1], m[s + 2], m[s + 3];
    forall i: nat | i < |m0| ensures m[..][i] == Moved(m0, d, s, 4)[i] {
      MovedAt(m0, d, s, 4, i);
    }
  }

  /** After the bytes from left on, the k bytes below them: to the right, they have not been overwritten. */
  lemma MoreBelow(m: seq<Byte>, dst: nat, src: nat, n: nat, left: nat, k: nat)
    requires src < dst && src + n <= |m| && dst + n <= |m| && k <= left <= n
    ensures Moved(Moved(m, dst + left, src + left, n - left), dst + (left - k), src + (left - k), k) ==
            Moved(m, dst + (left - k), src + (left - k), n - (left - k))
  {
    hide Moved;
    var d, t, x := dst + (left - k), src + (left - k), Moved(m, dst + left, src + left, n - left);
    forall i: nat | i < |m| ensures Moved(x, d, t, k)[i] == Moved(m, d, t, n - (left - k))[i] {
      MovedAt(x, d, t, k, i);
      MovedAt(m, d, t, n - (left - k), i);
      MovedAt(m, dst + left, src + left, n - left, i);
      if d <= i < d + k {
        MovedAt(m, dst + left, src + left, n - left, t + (i - d));
      }
    }
  }

  /** After the first bytes, k more: to the left, or to a place apart, they have not been overwritten. */
  lemma MoreAbove(m: seq<Byte>, dst: nat, src: nat, n: nat, done: nat, k: nat)
    requires dst <= src || src + n <= dst
    requires src + n <= |m| && dst + n <= |m| && done + k <= n
    ensures Moved(Moved(m, dst, src, done), dst + done, src + done, k) == Moved(m, dst, src, done + k)
  {
    hide Moved;
    var d, t, x := dst + done, src + done, Moved(m, dst, src, done);
    forall i: nat | i < |m| ensures Moved(x, d, t, k)[i] == Moved(m, dst, src, done + k)[i] {
      MovedAt(x, d, t, k, i);
      MovedAt(m, dst, src, done + k, i);
      MovedAt(m, dst, src, done, i);
      if d <= i < d + k {
        MovedAt(m, dst, src, done, t + (i - d));
      }
    }
  }

  /** The move that starts at the end: by bytes, or by words. */
  method MoveFromEnd(m: array<Byte>, dst: nat, src: nat, n: nat, words: bool)
    requires src + n <= m.Length && dst + n <= m.Length && src < dst && (words ==> n % 4 == 0)
    modifies m
    ensures m[..] == Moved(old(m[..]), dst, src, n)
  {
    hide Moved;
    ghost var m0 := m[..];
    var left := n;
    MovedNothing(m0, dst + n, src + n);
    while left > 0
      invariant 0 <= left <= n && (words ==> left % 4 == 0)
      invariant m[..] == Moved(m0, dst + left, src + left, n - left)
    {
      if words {
        MoreBelow(m0, dst, src, n, left, 4);
        left := left - 4;
        MoveWord(m, dst + left, src + left);
      } else {
        MoreBelow(m0, dst, src, n, left, 1);
        left := left - 1;
        MoveByte(m, dst + left, src + left);
      }
    }
  }

  /** The move that starts at the beginning. */
  method MoveFromStart(m: array<Byte>, dst: nat, src: nat, n: nat, words: bool)
    requires src + n <= m.Length && dst + n <= m.Length && (words ==> n % 4 == 0)
    requires dst <= src || src + n <= dst
    modifies m
    ensures m[..] == Moved(old(m[..]), dst, src, n)
  {
    hide Moved;
    ghost var m0 := m[..];
    var done := 0;
    MovedNothing(m0, dst, src);
    while done < n
      invariant done <= n && (words ==> done % 4 == 0)
      invariant m[..] == Moved(m0, dst, src, done)
    {
      if words {
        MoreAbove(m0, dst, src, n, done, 4);
        MoveWord(m, dst + done, src + done);
        done := done + 4;
      } else {
        MoreAbove(m0, dst, src, n, done, 1);
        MoveByte(m, dst + done, src + done);
        done := done + 1;
      }
    }
  }

  /**
   * memmove, on addresses in one memory: right for every overlap of source and destination.  Words are
   * moved exactly if both addresses and the length are multiples of 4.
   */
  method Memmove(m: array<Byte>, dst: nat, src: nat, n: nat)
    requires src + n <= m.Length && dst + n <= m.Length
    modifies m
    ensures m[..] == Moved(old(m[..]), dst, src, n)
  {
    if src < dst && src + n > dst {
      MoveFromEnd(m, dst, src, n, (src + n) % 4 == 0 && (dst + n) % 4 == 0 && n % 4 == 0);
    } else {
      MoveFromStart(m, dst, src, n, src % 4 == 0 && dst % 4 == 0 && n % 4 == 0);
    }
  }
}
