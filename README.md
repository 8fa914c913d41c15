# Portfolio page interactions, modelled in Dafny

This project models the three pieces of discrete logic in the portfolio
site's client-side scripts and proves their properties:

- **Typing animation** (`typing.dfy`, module `Typing`): the hero section's
  role cycler. A state `(roleIndex, charIndex, isDeleting)` is advanced by
  `typeRole`. Each step shows a prefix of the current role and picks the delay
  before the next step: 100 ms after typing a character, 2000 ms once the role
  is complete, 50 ms after deleting a character, and 500 ms once the role is
  gone. Then the next role follows, modulo the list length. The pure step
  function `Step` and its iteration `Run` are the specification. The class
  `TypingAnimation` holds the closed-over variables and updates them in place
  in `TypeRole`. Its `Animate` stands for the chain of self-rescheduling timers.
- **Navigation scroll handler** (`navigation.dfy`, module `Navigation`): the
  bar gets the `scrolled` class when the page offset is past 50. It gets the
  `hidden` class when the offset is past 200 and greater than the previous
  event's offset. The handler then remembers the current offset. `OnScroll` is
  the specification on values. The class `NavBar` (class list plus
  `lastScroll`) changes in place.
- **Decrypt reveal of section titles** (`decryption.dfy`, module
  `Decryption`): every 50 ms the title shows a frame. Positions before the
  reveal point show the real character. The others show a letter of
  `A-Z0-9` chosen at random. The reveal point grows by 1/3 per tick, and the
  interval clears itself once the point reaches the text's length. The class
  `SectionTitle` covers the observer callback over a batch of entries, the
  100 ms start timers, the font switch, and the ticks of every interval
  started. The callback checks nothing about its target. Every intersecting
  entry in a batch schedules an effect, so a batch with two intersecting
  entries for one title starts two intervals. The model allows this. It
  proves that the number of effects a title ever triggers is the number of
  intersecting entries in its first batch that has one, so `hackEffect`
  runs at most once exactly when that batch holds no two intersecting
  entries.

Modelling choices:

- The reveal point `iterations` (a float growing by 1/3) is kept exact as an
  integer tick count `k` with `iterations == k/3`. So "position `i` is
  revealed" is `3*i < k` and "the interval stops" is `k >= 3*|text|`.
- `Math.floor(Math.random() * 36)` is an oracle parameter `draw(k, i)` whose
  type `Pick` is the range `[0, 36)`.
- JavaScript's `substring(0, n)` clamps `n` into `[0, length]`. `Substring0`
  does the same, so a step is defined for every state, not only for the
  reachable ones.
- Timers (`setTimeout`, `setInterval`) are replaced by explicit step and tick
  methods that return or imply the delay. The page offset is an integer.

The scripts' role list has five roles (`Data Scientist`, `ML Engineer`,
`Deep Learning`, `Forecasting`, `RAG Systems`). The model uses these, and
every lemma about the cycle holds for any list of non-empty roles.

## Model

| member | source | states |
|---|---|---|
| Typing.Substring0 | assets/js/main.js:51 | `substring(0, n)` is a prefix of the role, of length `n` clamped into `[0, length]` |
| Typing.Step | assets/js/main.js:47-67 | one `typeRole` call. The text shown is the role cut at the new `charIndex`. Typing adds one character and switches to deleting, with delay 2000, exactly when the role is complete; otherwise the delay is 100. Deleting removes one character. At 0 it switches to typing the role `(roleIndex+1) % length` with delay 500; otherwise the delay is 50. `roleIndex` stays in range |
| Typing.InitialIsValid | assets/js/main.js:31-45 | the hard-coded roles are all non-empty and the start state `(0, 0, typing)` satisfies the invariant |
| Typing.StepKeepsInv | assets/js/main.js:42-67 | if every role is non-empty, a step keeps `0 <= roleIndex < length` and `0 <= charIndex <= |role|`, with `charIndex < |role|` while typing and `>= 1` while deleting. The text shown is exactly `role[0..charIndex]` |
| Typing.Run | assets/js/main.js:47-69 | `k` rescheduled steps give `k` texts and `k` delays and end in a state that still satisfies the invariant |
| Typing.RunSplit | assets/js/main.js:69 | running `a` steps and then `b` more equals running `a+b` steps: texts, delays and final state |
| Typing.TypingPhase | assets/js/main.js:55-62 | typing from `charIndex c` shows the prefixes of length `c+1 .. n`, each followed by 100 ms except the complete role, which is held for 2000 ms. It ends in deleting mode at `charIndex n` |
| Typing.DeletingPhase | assets/js/main.js:50-66 | deleting from `charIndex c` shows the prefixes of length `c-1 .. 0`, each followed by 50 ms except the last, which is followed by 500 ms. It ends typing the next role, cyclically, from 0 |
| Typing.RoleCycle | assets/js/main.js:47-67 | from `(r, 0, typing)`, 2·n steps show the prefixes of length 1..n and then n-1..0 of role `r`, with their delays, and end at `((r+1) % length, 0, typing)` |
| Typing.RoleCycleEnd | assets/js/main.js:63-66 | after one full role the animation is at the start of the next role, or of the first role after the last one |
| Typing.CycleFrom | assets/js/main.js:47-69 | from the start of role `i`, `CycleLength(roles, i)` = 2·(sum of the lengths of roles `i..`) steps of typing and deleting the remaining roles bring the animation back to `(0, 0, typing)` |
| Typing.AnimationIsPeriodic | assets/js/main.js:31-73 | over the hard-coded roles, the animation returns to its initial state after 2·(sum of the role lengths) steps, so it cycles forever through the list in order |
| Typing.TypingAnimation.constructor | assets/js/main.js:30-45 | `initTypingAnimation`: the hard-coded roles, state `(0, 0, typing)`, speed 100, and the class invariant holds |
| Typing.TypingAnimation.TypeRole | assets/js/main.js:47-70 | updates the fields in place exactly as `Step` prescribes, keeps the invariant, and returns the delay it reschedules with |
| Typing.TypingAnimation.Animate | assets/js/main.js:69-73 | `k` self-rescheduled calls leave the state `Run` predicts. They return its delays, and leave the last text and the last delay in `textContent` and `typingSpeed` |
| Navigation.OnScroll | assets/js/main.js:254-272 | after a scroll event, `scrolled` is present iff the offset is > 50, and `hidden` iff the offset is > the previous one and > 200. Every other class is unchanged, and the remembered offset becomes the current one |
| Navigation.OnScrolls | assets/js/main.js:254 | a series of scroll events, applied in order; no events leave the state unchanged |
| Navigation.OnScrollsSplit | assets/js/main.js:254 | handling one series of events and then another is the same as handling the two series joined |
| Navigation.HiddenImpliesScrolled | assets/js/main.js:258-269 | a hidden bar always also has its background |
| Navigation.NotScrollingDownShows | assets/js/main.js:265-269 | an event at an offset not greater than the previous one always removes `hidden` |
| Navigation.FlagsForgotten | assets/js/main.js:257-269 | the result does not depend on whether `scrolled` or `hidden` were present before the event |
| Navigation.LastTwoOffsetsDecide | assets/js/main.js:252-271 | after any non-empty series of events, the flags are decided by the last offset and the one before it (or the installation value 0 after a single event). Other classes are as before, and the remembered offset is the last one |
| Navigation.NavBar.constructor | assets/js/main.js:249-252 | installing the handler keeps the bar's classes and starts with `lastScroll == 0` |
| Navigation.NavBar.HandleScroll | assets/js/main.js:254-272 | the listener updates the class list and `lastScroll` in place exactly as `OnScroll` prescribes |
| Decryption.StopTick | assets/js/interactions.js:101 | the interval stops on tick `3·length`, and on no earlier tick |
| Decryption.Frame | assets/js/interactions.js:92-99 | a frame has the length of the original. Position `i` shows the original character when `3i < k` (`i < iterations`), and otherwise a character of the 36-symbol alphabet |
| Decryption.Frames | assets/js/interactions.js:91-108 | the interval writes `3·length + 1` frames, each as long as the original, and the last is the original text |
| Decryption.StopFrameIsOriginal | assets/js/interactions.js:92-102 | on the stopping tick, whatever the random draws, the frame written equals the original text |
| Decryption.FullyRevealedFrom | assets/js/interactions.js:94-101 | every position is revealed exactly from tick `3·length − 2` on. The last two frames before the stopping one already show the original |
| Decryption.RevealMonotone | assets/js/interactions.js:94-107 | a position revealed at tick `k` stays revealed and shows its original character at every later tick, whatever the random draws |
| Decryption.RevealedCount | assets/js/interactions.js:94 | `ceil(k/3)` capped at the length: a position is revealed at tick `k` exactly when it lies below this count |
| Decryption.CountIntersecting | assets/js/interactions.js:66-67 | the number of intersecting entries in a batch: at most its length, and zero exactly when no entry intersects |
| Decryption.AtMostOneIntersecting | assets/js/interactions.js:66-73 | a batch schedules at most one effect exactly when no two of its entries intersect |
| Decryption.DoubleEntryCountsTwice | assets/js/interactions.js:66-73 | a batch with two intersecting entries for the same title counts, and so schedules, two effects |
| Decryption.RevealedPrefix | assets/js/interactions.js:92-99 | at tick `k` the frame is the original's first `RevealedCount` characters (`ceil(k/3)` capped at the length) followed by unrevealed positions that hold alphabet characters only |
| Decryption.EmptyStopsAtOnce | assets/js/interactions.js:101-102 | an empty title stops on its first tick, after writing the empty text once |
| Decryption.SectionTitle.constructor | assets/js/interactions.js:77-81 | the title's text is stored as `dataset.value` and the title is observed, with nothing triggered, scheduled or started |
| Decryption.SectionTitle.OnEntries | assets/js/interactions.js:65-75 | the callback over one batch schedules one effect per intersecting entry, with no check on the target: `triggered` grows by the batch's count. The title stays observed exactly when no entry intersects, and text, font and intervals are untouched. Only an observed title gets a batch, and an observed title has triggered nothing, so after its first intersecting batch `triggered` is that batch's count for good (`StartEffect`, `Tick` and `RunEffect` keep it). With `AtMostOneIntersecting`, it is at most one exactly when no two entries of that batch intersect |
| Decryption.SectionTitle.StartEffect | assets/js/interactions.js:69-91 | a 100 ms timer fires and `hackEffect` starts a new interval with reveal point 0 and the monospace font. The text and the observation are unchanged |
| Decryption.SectionTitle.Tick | assets/js/interactions.js:91-108 | one tick of interval `j` writes `Frame` for that interval's tick and stops exactly when its `iterations >= length`. On the stopping tick it resets the font to `""` and leaves the original text displayed. It advances only that interval's reveal point, and a cleared interval changes nothing. The invariant `Valid` keeps every triggered effect pending or started, the font monospace while no interval has stopped, and the original text and font `""` once all have |
| Decryption.SectionTitle.RunEffect | assets/js/interactions.js:91-108 | interval `j`, with no other interval ticking in between, writes exactly the frames of ticks `0 .. 3·length` and ends with the original text and the font reset |

## Left out

- `Math.random`: replaced by the oracle `draw(tick, position)` with values in `[0, 36)`. Nothing is said about its distribution.
- Float accumulation of `1/3` in `iterations` (assets/js/interactions.js:107): the model counts ticks exactly, with `iterations == k/3`. In double precision the sum drifts, and the drift moves both the stop check (line 101) and the reveal check (line 94) by a tick for some lengths. After 6 additions the sum is 1.9999999999999998, so a 2-character title stops on tick 7, not 6, and writes 8 frames. After 33 additions it is 11.000000000000002, so position 11 is revealed on tick 33, not 34.
- Decryption.StopTick: holds for the exact reveal point `k/3`; with the float sum the stopping tick can be one later (see the line above).
- Decryption.Frames: the frame count `3·length + 1` holds for the exact reveal point; with the float sum it can be one more.
- Decryption.FullyRevealedFrom: holds for the exact reveal point; with the float sum a position can be revealed a tick earlier or later.
- Decryption.RevealedPrefix: holds for the exact reveal point; with the float sum the revealed prefix can be one character longer or shorter on a boundary tick.
- Decryption.Frame: the text is a sequence of Dafny characters (Unicode scalar values), while `split("")`, indexing and `.length` (assets/js/interactions.js:92-101) work on UTF-16 code units. For a title outside the Basic Multilingual Plane, such as one ending in an emoji, the source has one position per surrogate half, a longer length and a later stopping tick. The model matches the source only when `value` is read as a sequence of code units, which is exact for titles made only of Basic Multilingual Plane characters.
- Timers and `requestAnimationFrame`: the typing delays are returned as values. The 1500 ms start delay of the typing animation (assets/js/main.js:73), the 100 ms delay before `hackEffect` (assets/js/interactions.js:71) and the 50 ms tick period (assets/js/interactions.js:108) appear only in doc comments, because no contract here depends on time. Real time and the interleaving of different timers are not modelled.
- The early returns when `.typing-text` or `.nav` is absent (assets/js/main.js:40, 250): the model starts with the element present.
- `window.pageYOffset` may be fractional; the model uses integer offsets.
- The observer is modelled per title: one `SectionTitle` stands for one observed `.section-title`. The shared `IntersectionObserver` object, its 0.5 threshold and DOM geometry are not modelled. `OnEntries` receives the `isIntersecting` flags of the batch's entries about the title.
- Decryption.SectionTitle.RunEffect: covers one interval running to completion on its own. When two effects were started, their ticks interleave in an order the model leaves to the caller of `Tick`. Only the invariant `Valid` describes that case.
- `innerText` is treated as plain string assignment. Whitespace and layout normalisation by the browser are not modelled.
- GSAP timelines and the fallback class toggling (assets/js/main.js:79-243): library and DOM wiring with nothing to state beyond adding classes.
- Smooth scrolling for anchor links (assets/js/main.js:275-289): browser geometry and `scrollTo`.
- The card tilt effect (assets/js/interactions.js:19-56): float arithmetic formatted into CSS transform strings.
- The particle network (assets/js/particles.js), the 3D landscape (assets/js/bg-3d-landscape.js) and the gradient-mesh shader (assets/js/bg-gradient-mesh.js): floating-point physics, trigonometry, GPU code and calls into a 3D library. None of this is part of this model.
