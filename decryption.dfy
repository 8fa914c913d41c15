/** The "decrypt" reveal of section titles.  When a title first scrolls into
    view its text is replaced, every 50 ms, by a frame in which the characters
    before a growing reveal point are the real ones and all others are random
    letters or digits; once the reveal point passes the end, the real text is
    written one last time and the interval stops.

    The reveal point `iterations` grows by 1/3 per tick; here it is kept exact
    as the tick count `k`, with `iterations == k / 3` as a rational, so that
    "position i is revealed" (`i < iterations`) reads `3 * i < k`. */
module Decryption {

  /** The scramble alphabet. */
  const Letters: string := "ABCDEFGHIJKLMNOPQRSTUVWXYZ0123456789"

  /** Ticks per revealed character (the reveal point grows by 1/3 per tick). */
  const TicksPerChar := 3

  /** Font family set while the effect runs. */
  const Monospace: string := "'Courier New', monospace"

  /** `Math.floor(Math.random() * 36)`: an index into the alphabet. */
  type Pick = x: int | 0 <= x < 36

  /** The random source: `draw(k, i)` is the index chosen at tick `k` for
      position `i`. */
  type Oracle = (nat, nat) -> Pick

  /** Position `i` shows its real character at tick `k`: `i < iterations`. */
  predicate Revealed(k: nat, i: nat)
  {
    i * TicksPerChar < k
  }

  /** The interval stops at tick `k`: `iterations >= originalText.length`. */
  predicate Stops(text: string, k: nat)
  {
    k >= TicksPerChar * |text|
  }

  /** The tick on which the interval stops. */
  function StopTick(text: string): (k: nat)
    ensures Stops(text, k) && forall j: nat :: j < k ==> !Stops(text, j)
  {
    TicksPerChar * |text|
  }

  /** The frame written at tick `k`. */
  function Frame(text: string, k: nat, draw: Oracle): (r: string)
    ensures |r| == |text|
    ensures forall i :: 0 <= i < |text| && Revealed(k, i) ==> r[i] == text[i]
    ensures forall i :: 0 <= i < |text| && !Revealed(k, i) ==> r[i] in Letters
  {
    seq(|text|, i requires 0 <= i < |text| => if Revealed(k, i) then text[i] else Letters[draw(k, i)])
  }

  /** Every frame the interval writes, from tick 0 to the stopping tick. */
  function Frames(text: string, draw: Oracle): (fs: seq<string>)
    ensures |fs| == StopTick(text) + 1
    ensures forall k :: 0 <= k < |fs| ==> |fs[k]| == |text|
    ensures fs[|fs| - 1] == text
  {
    StopFrameIsOriginal(text, StopTick(text), draw);
    seq(StopTick(text) + 1, k requires 0 <= k <= StopTick(text) => Frame(text, k, draw))
  }

  /** From the stopping tick on, the frame is the original text, whatever the
      random draws. */
  lemma StopFrameIsOriginal(text: string, k: nat, draw: Oracle)
    requires Stops(text, k)
    ensures Frame(text, k, draw) == text
  {
  }

  /** Every position is revealed exactly from tick StopTick - 2 on: the two
      ticks before the stopping one already write the original text, and the
      interval stops only on the third. */
  lemma FullyRevealedFrom(text: string, k: nat)
    ensures (forall i :: 0 <= i < |text| ==> Revealed(k, i)) <==> k + 2 >= StopTick(text)
  {
    if k + 2 < StopTick(text) {
      assert !Revealed(k, |text| - 1);
    }
  }

  /** Reveal is monotone: a position shown at tick `k` is shown at every later
      tick, whatever the random draws of either. */
  lemma RevealMonotone(text: string, k: nat, k': nat, draw: Oracle, draw': Oracle, i: nat)
    requires k <= k' && i < |text| && Revealed(k, i)
    ensures Revealed(k', i) && Frame(text, k', draw')[i] == text[i]
  {
  }

  /** The number of positions shown at tick `k`: ceil(k / 3), at most the length. */
  function RevealedCount(text: string, k: nat): (n: nat)
    ensures n <= |text|
    ensures forall i :: 0 <= i < |text| ==> (Revealed(k, i) <==> i < n)
  {
    if (k + TicksPerChar - 1) / TicksPerChar < |text| then (k + TicksPerChar - 1) / TicksPerChar else |text|
  }

  /** At tick `k` the frame is the original's prefix of RevealedCount(k)
      characters followed by scrambled characters only. */
  lemma RevealedPrefix(text: string, k: nat, draw: Oracle)
    ensures var n := RevealedCount(text, k);
            var r := Frame(text, k, draw);
            && r[..n] == text[..n]
            && forall i :: n <= i < |text| ==> !Revealed(k, i) && r[i] in Letters
  {
  }

  /** The empty title stops on its first tick, after writing the empty text. */
  lemma EmptyStopsAtOnce(draw: Oracle)
    ensures StopTick([]) == 0 && Frames([], draw) == [[]]
  {
  }

  /** The number of entries in an observer batch that report an intersection. */
  function CountIntersecting(entries: seq<bool>): (n: nat)
    ensures n <= |entries|
    ensures n == 0 <==> forall j :: 0 <= j < |entries| ==> !entries[j]
    decreases |entries|
  {
    if entries == [] then 0
    else CountIntersecting(entries[..|entries| - 1]) + (if entries[|entries| - 1] then 1 else 0)
  }

  /** A batch counts at most one intersection exactly when no two of its
      entries intersect. */
  lemma {:induction false} AtMostOneIntersecting(entries: seq<bool>)
    ensures CountIntersecting(entries) <= 1
        <==> forall j, j' :: 0 <= j < j' < |entries| ==> !(entries[j] && entries[j'])
    decreases |entries|
  {
    if entries != [] {
      var init := entries[..|entries| - 1];
      AtMostOneIntersecting(init);
      var last := |entries| - 1;
      assert forall j :: 0 <= j < last ==> init[j] == entries[j];
      if CountIntersecting(entries) <= 1 && entries[last] {
        assert CountIntersecting(init) == 0;
        forall j, j' | 0 <= j < j' < |entries| ensures !(entries[j] && entries[j']) {
          assert !entries[j];
        }
      }
      if CountIntersecting(entries) > 1 {
        if entries[last] {
          assert CountIntersecting(init) != 0;
          var j :| 0 <= j < |init| && init[j];
          assert entries[j] && entries[last];
        } else {
          var j, j' :| 0 <= j < j' < |init| && init[j] && init[j'];
          assert entries[j] && entries[j'];
        }
      }
    }
  }

  /** Two intersecting entries about one title in the same batch count twice,
      so such a batch starts `hackEffect` twice. */
  lemma DoubleEntryCountsTwice()
    ensures CountIntersecting([true, true]) == 2
  {
    assert [true, true][..1] == [true];
    assert [true][..0] == [];
  }

  /** A `.section-title` element: its stored text, its displayed text and font,
      whether the intersection observer still watches it, the 100 ms timers
      that will start `hackEffect`, and one interval per `hackEffect` started. */
  class SectionTitle {
    /** `dataset.value`: the text stored when the observer is set up. */
    const value: string
    var innerText: string
    var fontFamily: string
    /** Still observed by the intersection observer. */
    var observed: bool
    /** Timers scheduled by the observer callback that have not fired yet. */
    var scheduled: nat
    /** For each `hackEffect` started, the ticks its interval has run (its
        `iterations` is that count / 3); it is active while the count is at
        most StopTick(value). */
    var intervals: seq<nat>
    /** Every text the intervals wrote, in order. */
    ghost var written: seq<string>
    /** The number of `hackEffect` calls the observer callback has scheduled
        so far, whether or not their timer has fired. */
    ghost var triggered: nat

    ghost predicate AllActive()
      reads this
    {
      forall j :: 0 <= j < |intervals| ==> intervals[j] <= StopTick(value)
    }

    ghost predicate AllStopped()
      reads this
    {
      forall j :: 0 <= j < |intervals| ==> intervals[j] == StopTick(value) + 1
    }

    /** Nothing happens before the first intersection; once unobserved, every
        effect triggered is pending or started, and there is at least one; while no interval has stopped the font is
        monospace; once every interval has stopped, the original text and the
        default font are back. */
    ghost predicate Valid()
      reads this
    {
      && (observed ==> triggered == 0 && scheduled == 0 && intervals == [] && written == [])
      && (!observed ==> scheduled + |intervals| == triggered >= 1)
      && (forall j :: 0 <= j < |intervals| ==> intervals[j] <= StopTick(value) + 1)
      && (intervals != [] && AllActive() ==> fontFamily == Monospace)
      && (intervals != [] && AllStopped() ==> innerText == value && fontFamily == "")
    }

    /** `initDecryption` for one title: store its text and observe it. */
    constructor (text: string, font: string)
      ensures Valid()
      ensures value == text && innerText == text && fontFamily == font
      ensures observed && triggered == 0 && scheduled == 0 && intervals == [] && written == []
    {
      value := text;
      innerText := text;
      fontFamily := font;
      observed, scheduled, intervals := true, 0, [];
      written, triggered := [], 0;
    }

    /** The observer callback on a batch of entries about this title (their
        `isIntersecting` flags, in order): every intersecting entry schedules
        `hackEffect` and unobserves the title.  The observer reports nothing
        about a title it no longer observes, so `triggered`, the number of
        effects ever scheduled for the title, is fixed by its first batch with
        an intersecting entry: it is the count of such entries there. */
    method OnEntries(entries: seq<bool>)
      requires Valid()
      requires observed || entries == []
      modifies this
      ensures Valid()
      ensures scheduled == old(scheduled) + CountIntersecting(entries)
      ensures scheduled + |intervals| == old(scheduled + |intervals|) + CountIntersecting(entries)
      ensures triggered == old(triggered) + CountIntersecting(entries)
      ensures old(observed) ==> triggered == CountIntersecting(entries)
      ensures observed <==> old(observed) && CountIntersecting(entries) == 0
      ensures unchanged(this`innerText, this`fontFamily, this`intervals, this`written)
    {
      var i := 0;
      while i < |entries|
        invariant 0 <= i <= |entries|
        invariant scheduled == old(scheduled) + CountIntersecting(entries[..i])
        invariant triggered == old(triggered) + CountIntersecting(entries[..i])
        invariant observed <==> old(observed) && CountIntersecting(entries[..i]) == 0
        invariant unchanged(this`innerText, this`fontFamily, this`intervals, this`written)
      {
        assert entries[..i + 1][..i] == entries[..i];
        if entries[i] {
          scheduled, triggered := scheduled + 1, triggered + 1;
          observed := false;
        }
        i := i + 1;
      }
      assert entries[..i] == entries;
    }

    /** A 100 ms timer fires: `hackEffect` switches to the monospace font and
        starts a new interval with the reveal point at 0. */
    method StartEffect()
      requires Valid() && scheduled > 0
      modifies this
      ensures Valid()
      ensures scheduled == old(scheduled) - 1 && intervals == old(intervals) + [0]
      ensures fontFamily == Monospace
      ensures unchanged(this`innerText, this`observed, this`written, this`triggered)
    {
      scheduled := scheduled - 1;
      fontFamily := Monospace;
      intervals := intervals + [0];
      assert intervals[|intervals| - 1] == 0;
    }

    /** One tick of interval `j`: write the frame, stop and restore the font
        when the reveal point has reached the end, advance the reveal point.
        A cleared interval does nothing. */
    method Tick(j: nat, draw: Oracle)
      requires Valid() && j < |intervals|
      modifies this
      ensures Valid()
      ensures var t := old(intervals[j]);
              if t <= StopTick(value) then
                && innerText == Frame(value, t, draw)
                && written == old(written) + [innerText]
                && intervals == old(intervals)[j := t + 1]
                && fontFamily == (if Stops(value, t) then "" else old(fontFamily))
                && unchanged(this`observed, this`scheduled, this`triggered)
              else unchanged(this)
    {
      var t := intervals[j];
      if t <= StopTick(value) {
        innerText := Frame(value, t, draw);
        written := written + [innerText];
        if Stops(value, t) {
          StopFrameIsOriginal(value, t, draw);
          fontFamily := "";
        }
        intervals := intervals[j := t + 1];
        if AllActive() {
          assert old(AllActive()) by {
            forall m | 0 <= m < |intervals| ensures old(intervals[m]) <= StopTick(value) {
              assert m != j ==> old(intervals[m]) == intervals[m];
            }
          }
          assert !Stops(value, t);
        }
        if AllStopped() {
          assert intervals[j] == StopTick(value) + 1;
        }
      }
    }

    /** Interval `j`, with no other interval ticking in between, from its start
        until it clears itself: it writes exactly the frames of ticks
        0 .. StopTick, the last being the original text, and restores the font. */
    method RunEffect(j: nat, draw: Oracle)
      requires Valid() && j < |intervals| && intervals[j] == 0
      modifies this
      ensures Valid()
      ensures intervals == old(intervals)[j := StopTick(value) + 1]
      ensures written == old(written) + Frames(value, draw)
      ensures innerText == value && fontFamily == ""
      ensures unchanged(this`observed, this`scheduled, this`triggered)
    {
      ghost var fs := Frames(value, draw);
      var stop := StopTick(value);
      var k := 0;
      while k <= stop
        invariant Valid() && j < |intervals| && |fs| == stop + 1
        invariant k <= stop + 1 && intervals == old(intervals)[j := k]
        invariant written == old(written) + fs[..k]
        invariant k == stop + 1 ==> innerText == value && fontFamily == ""
        invariant unchanged(this`observed, this`scheduled, this`triggered)
        decreases stop + 1 - k
      {
        assert fs[k] == Frame(value, k, draw);
        if k == stop {
          StopFrameIsOriginal(value, k, draw);
        }
        Tick(j, draw);
        assert fs[..k + 1] == fs[..k] + [fs[k]];
        k := k + 1;
      }
      assert fs[..k] == fs;
    }
  }
}
