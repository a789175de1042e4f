/** The reminder texts and the endless round-robin over them.

    The loop holds one cycling iterator over the fixed list and draws the next
    text from it once per in-window tick. The iterator's hidden state is modelled
    as a cursor into the list that wraps to the front after the last text. */
module MessageCycle {
  import opened Arith

  const Messages: seq<string> := [
    "20-20-20 rule! Look 20 ft for 20 sec \U{1F440}\U{23F1}\U{FE0F}",
    "Blink now and relax your eyes \U{1F60A}",
    "Time to look away from the screen \U{1F5A5}\U{FE0F}\U{27A1}\U{FE0F}\U{1F333}",
    "Roll your shoulders and rest your eyes \U{1F486}\U{200D}\U{2642}\U{FE0F}",
    "Focus far, give your eyes a mini-vacation \U{1F3D6}\U{FE0F}",
    "Close eyes for 10 seconds, breathe deeply \U{1F60C}",
    "Adjust posture and let your eyes refocus \U{1FA91}\U{1F440}",
    "Look at something green to reduce strain \U{1F33F}",
    "Remember to blink more and relax \U{1F634}\U{1F441}\U{FE0F}",
    "Hydrate and rest your eyes \U{1F4A7}\U{1F441}\U{FE0F}"
  ]

  /** The text the iterator yields on its `k`-th draw, counting from 0. */
  function MessageFor(k: nat): string
  {
    Messages[k % |Messages|]
  }

  /** The cursor after one draw: the next position, wrapping from the last
      text back to the first. */
  function Advance(cursor: nat): (next: nat)
    requires cursor < |Messages|
    ensures next < |Messages|
    ensures next == (cursor + 1) % |Messages|
  {
    if cursor + 1 == |Messages| then 0 else cursor + 1
  }

  /** A cursor that sits at `k % 10` after `k` draws sits at `(k + 1) % 10` after
      one more, so the cursor and the draw count never drift apart. */
  lemma AdvanceTracksDraws(k: nat)
    ensures Advance(k % |Messages|) == (k + 1) % |Messages|
  {
    var n, q, c := |Messages|, k / |Messages|, k % |Messages|;
    DivModUnique(k, q, c, n);
    if c + 1 == n {
      DivModUnique(k + 1, q + 1, 0, n);
    } else {
      DivModUnique(k + 1, q, c + 1, n);
    }
  }

  /** The cycle repeats every ten draws. */
  lemma CyclePeriod(k: nat)
    ensures MessageFor(k + |Messages|) == MessageFor(k)
  {
    var n, q, c := |Messages|, k / |Messages|, k % |Messages|;
    DivModUnique(k, q, c, n);
    DivModUnique(k + n, q + 1, c, n);
  }

  /** Any ten consecutive draws, wherever they start, include every text. */
  lemma CycleReaches(k: nat, j: nat)
    requires j < |Messages|
    ensures exists i :: k <= i < k + |Messages| && MessageFor(i) == Messages[j]
  {
    var n, q, c := |Messages|, k / |Messages|, k % |Messages|;
    DivModUnique(k, q, c, n);
    var i := if c <= j then k + (j - c) else k + (j - c + n);
    if c <= j {
      DivModUnique(i, q, j, n);
    } else {
      DivModUnique(i, q + 1, j, n);
    }
    assert MessageFor(i) == Messages[j];
  }
}
