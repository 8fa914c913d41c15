/** The typing animation of the hero section: a role is typed one character at
    a time, held, deleted one character at a time, and the next role follows,
    forever.  The state is (roleIndex, charIndex, isDeleting); every step shows a
    prefix of the current role and chooses the delay before the next step. */
module Typing {

  /** The hard-coded list of roles the animation cycles through. */
  const Roles: seq<string> := ["Data Scientist", "ML Engineer", "Deep Learning", "Forecasting", "RAG Systems"]

  /** Delays, in milliseconds, before the next step. */
  const TypeDelay := 100       // after typing a character
  const DeleteDelay := 50      // after deleting a character
  const HoldDelay := 2000      // after the whole role has been typed
  const NextRoleDelay := 500   // after the role has been deleted completely

  datatype TypingState = TypingState(roleIndex: int, charIndex: int, isDeleting: bool)

  /** What one step produces: the new state, the text now displayed and the delay
      before the following step. */
  datatype StepOutput = StepOutput(next: TypingState, text: string, delay: int)

  /** The rescheduled steps seen together: the texts displayed and the delays
      chosen, in order, and the state after the last step. */
  datatype Trace = Trace(texts: seq<string>, delays: seq<int>, last: TypingState)

  /** `s.substring(0, n)` in JavaScript: the prefix of `s` whose length is `n`
      clamped into [0, |s|]. */
  function Substring0(s: string, n: int): (r: string)
    ensures r <= s
    ensures |r| == if n <= 0 then 0 else if n >= |s| then |s| else n
  {
    if n <= 0 then [] else if n >= |s| then s else s[..n]
  }

  /** Every role is non-empty and there is at least one. */
  ghost predicate RolesNonEmpty(roles: seq<string>)
  {
    |roles| > 0 && forall i :: 0 <= i < |roles| ==> roles[i] != []
  }

  /** The states reachable from the start: while typing, the role is not yet
      complete; while deleting, at least one character is still shown. */
  ghost predicate Inv(roles: seq<string>, st: TypingState)
  {
    && RolesNonEmpty(roles)
    && 0 <= st.roleIndex < |roles|
    && if st.isDeleting then 1 <= st.charIndex <= |roles[st.roleIndex]|
       else 0 <= st.charIndex < |roles[st.roleIndex]|
  }

  function Initial(): TypingState
  {
    TypingState(0, 0, false)
  }

  /** One call of `typeRole`. */
  function Step(roles: seq<string>, st: TypingState): (o: StepOutput)
    requires 0 <= st.roleIndex < |roles|
    ensures 0 <= o.next.roleIndex < |roles|
    // the text shown is the current role cut at the new character index
    ensures o.text == Substring0(roles[st.roleIndex], o.next.charIndex)
    // typing: one more character; switch to deleting exactly when the role is complete
    ensures !st.isDeleting ==> o.next.charIndex == st.charIndex + 1 && o.next.roleIndex == st.roleIndex
    ensures !st.isDeleting ==> (o.next.isDeleting <==> st.charIndex + 1 == |roles[st.roleIndex]|)
    ensures !st.isDeleting ==> o.delay == if o.next.isDeleting then HoldDelay else TypeDelay
    // deleting: one character fewer; at zero go back to typing the next role
    ensures st.isDeleting ==> o.next.charIndex == st.charIndex - 1
    ensures st.isDeleting ==> (o.next.isDeleting <==> st.charIndex - 1 != 0)
    ensures st.isDeleting && o.next.isDeleting ==> o.delay == DeleteDelay && o.next.roleIndex == st.roleIndex
    ensures st.isDeleting && !o.next.isDeleting ==>
              o.delay == NextRoleDelay && o.next.roleIndex == (st.roleIndex + 1) % |roles|
  {
    var currentRole := roles[st.roleIndex];
    var c := if st.isDeleting then st.charIndex - 1 else st.charIndex + 1;
    var text := Substring0(currentRole, c);
    if !st.isDeleting && c == |currentRole| then
      StepOutput(TypingState(st.roleIndex, c, true), text, HoldDelay)
    else if st.isDeleting && c == 0 then
      StepOutput(TypingState((st.roleIndex + 1) % |roles|, c, false), text, NextRoleDelay)
    else
      StepOutput(TypingState(st.roleIndex, c, st.isDeleting), text, if st.isDeleting then DeleteDelay else TypeDelay)
  }

  /** The hard-coded roles satisfy the invariant's assumption, and so does the
      initial state. */
  lemma InitialIsValid()
    ensures Inv(Roles, Initial())
  {
  }

  /** A step keeps the invariant, and the text it shows is exactly the first
      `charIndex` characters of the role it worked on. */
  lemma StepKeepsInv(roles: seq<string>, st: TypingState)
    requires Inv(roles, st)
    ensures var o := Step(roles, st);
      && Inv(roles, o.next)
      && 0 <= o.next.charIndex <= |roles[st.roleIndex]|
      && o.text == roles[st.roleIndex][..o.next.charIndex]
  {
  }

  /** The first `k` rescheduled steps from `st`. */
  function Run(roles: seq<string>, st: TypingState, k: nat): (t: Trace)
    requires Inv(roles, st)
    ensures |t.texts| == k && |t.delays| == k
    ensures Inv(roles, t.last)
    decreases k
  {
    if k == 0 then Trace([], [], st)
    else
      StepKeepsInv(roles, st);
      var o := Step(roles, st);
      var t := Run(roles, o.next, k - 1);
      Trace([o.text] + t.texts, [o.delay] + t.delays, t.last)
  }

  /** Running `a` steps and then `b` more is running `a + b` steps. */
  lemma {:induction false} RunSplit(roles: seq<string>, st: TypingState, a: nat, b: nat)
    requires Inv(roles, st)
    ensures var x := Run(roles, st, a);
            var y := Run(roles, x.last, b);
            Run(roles, st, a + b) == Trace(x.texts + y.texts, x.delays + y.delays, y.last)
    decreases a
  {
    if a > 0 {
      StepKeepsInv(roles, st);
      var o := Step(roles, st);
      var x' := Run(roles, o.next, a - 1);
      var y := Run(roles, x'.last, b);
      var whole := Run(roles, o.next, (a - 1) + b);
      assert whole == Trace(x'.texts + y.texts, x'.delays + y.delays, y.last) by {
        RunSplit(roles, o.next, a - 1, b);
      }
      var x := Run(roles, st, a);
      assert x == Trace([o.text] + x'.texts, [o.delay] + x'.delays, x'.last);
      assert Run(roles, st, a + b) == Trace([o.text] + whole.texts, [o.delay] + whole.delays, whole.last);
      assert [o.text] + (x'.texts + y.texts) == x.texts + y.texts;
      assert [o.delay] + (x'.delays + y.delays) == x.delays + y.delays;
    }
  }

  /** Typing from character `c`: the role's prefixes of length c+1 .. n are shown,
      each followed by 100 ms except the complete role, held for 2000 ms, after
      which the animation is deleting the full role. */
  lemma {:induction false} TypingPhase(roles: seq<string>, r: int, c: int)
    requires Inv(roles, TypingState(r, c, false))
    ensures var n := |roles[r]|;
            var t := Run(roles, TypingState(r, c, false), n - c);
            && t.last == TypingState(r, n, true)
            && (forall j :: 0 <= j < n - c ==> t.texts[j] == roles[r][..c + j + 1])
            && (forall j :: 0 <= j < n - c ==> t.delays[j] == if c + j + 1 == n then HoldDelay else TypeDelay)
    decreases |roles[r]| - c
  {
    var n := |roles[r]|;
    var st := TypingState(r, c, false);
    StepKeepsInv(roles, st);
    var o := Step(roles, st);
    if c + 1 < n {
      TypingPhase(roles, r, c + 1);
      var t := Run(roles, o.next, n - c - 1);
      assert Run(roles, st, n - c) == Trace([o.text] + t.texts, [o.delay] + t.delays, t.last);
    } else {
      assert Run(roles, st, n - c) == Trace([o.text], [o.delay], o.next);
    }
  }

  /** Deleting from character `c`: the prefixes of length c-1 .. 0 are shown,
      each followed by 50 ms except the empty text, followed by 500 ms, after
      which the next role (cyclically) is typed from its start. */
  lemma {:induction false} DeletingPhase(roles: seq<string>, r: int, c: int)
    requires Inv(roles, TypingState(r, c, true))
    ensures var t := Run(roles, TypingState(r, c, true), c);
            && t.last == TypingState((r + 1) % |roles|, 0, false)
            && (forall j :: 0 <= j < c ==> t.texts[j] == roles[r][..c - 1 - j])
            && (forall j :: 0 <= j < c ==> t.delays[j] == if j == c - 1 then NextRoleDelay else DeleteDelay)
    decreases c
  {
    var st := TypingState(r, c, true);
    StepKeepsInv(roles, st);
    var o := Step(roles, st);
    if c > 1 {
      DeletingPhase(roles, r, c - 1);
      var t := Run(roles, o.next, c - 1);
      assert Run(roles, st, c) == Trace([o.text] + t.texts, [o.delay] + t.delays, t.last);
    } else {
      assert Run(roles, st, c) == Trace([o.text], [o.delay], o.next);
    }
  }

  /** One full role: from the start of role `r` (n characters), 2n steps show
      the prefixes of length 1 .. n and then n-1 .. 0, and end at the start of
      the next role. */
  lemma RoleCycle(roles: seq<string>, r: int)
    requires Inv(roles, TypingState(r, 0, false))
    ensures var n := |roles[r]|;
            var t := Run(roles, TypingState(r, 0, false), 2 * n);
            && t.last == TypingState((r + 1) % |roles|, 0, false)
            && (forall j :: 0 <= j < n ==> t.texts[j] == roles[r][..j + 1])
            && (forall j :: n <= j < 2 * n ==> t.texts[j] == roles[r][..2 * n - 1 - j])
            && (forall j :: 0 <= j < n ==> t.delays[j] == if j == n - 1 then HoldDelay else TypeDelay)
            && (forall j :: n <= j < 2 * n ==> t.delays[j] == if j == 2 * n - 1 then NextRoleDelay else DeleteDelay)
  {
    var n := |roles[r]|;
    var st := TypingState(r, 0, false);
    RunSplit(roles, st, n, n);
    TypingPhase(roles, r, 0);
    DeletingPhase(roles, r, n);
  }

  /** Where one full role ends: at the start of the next role, or of the first
      one after the last. */
  lemma RoleCycleEnd(roles: seq<string>, r: int)
    requires Inv(roles, TypingState(r, 0, false))
    ensures Run(roles, TypingState(r, 0, false), 2 * |roles[r]|).last
            == TypingState(if r + 1 < |roles| then r + 1 else 0, 0, false)
  {
    RoleCycle(roles, r);
  }

  /** Number of steps needed to type and delete the roles from index `i` to the
      end of the list. */
  function CycleLength(roles: seq<string>, i: nat): nat
    decreases |roles| - i
  {
    if i >= |roles| then 0 else 2 * |roles[i]| + CycleLength(roles, i + 1)
  }

  /** Starting at role `i`, after typing and deleting every remaining role the
      animation is back at its initial state: the animation is periodic. */
  lemma {:induction false} CycleFrom(roles: seq<string>, i: nat)
    requires RolesNonEmpty(roles) && i < |roles|
    ensures Run(roles, TypingState(i, 0, false), CycleLength(roles, i)).last == Initial()
    decreases |roles| - i
  {
    var st := TypingState(i, 0, false);
    var n := |roles[i]|;
    var rest := CycleLength(roles, i + 1);
    var mid := Run(roles, st, 2 * n).last;
    assert Run(roles, st, 2 * n + rest).last == Run(roles, mid, rest).last by {
      RunSplit(roles, st, 2 * n, rest);
    }
    RoleCycleEnd(roles, i);
    if i + 1 < |roles| {
      CycleFrom(roles, i + 1);
    }
  }

  /** The animation over the hard-coded roles returns to its initial state after
      one full cycle of 2·(sum of role lengths) steps. */
  lemma AnimationIsPeriodic()
    ensures Inv(Roles, Initial()) && Run(Roles, Initial(), CycleLength(Roles, 0)).last == Initial()
  {
    CycleFrom(Roles, 0);
  }

  /** The animation as the page runs it: the closed-over variables of
      `initTypingAnimation`, updated in place by `typeRole`. */
  class TypingAnimation {
    const roles: seq<string>
    var roleIndex: int
    var charIndex: int
    var isDeleting: bool
    var typingSpeed: int
    var textContent: string

    ghost function State(): TypingState
      reads this
    {
      TypingState(roleIndex, charIndex, isDeleting)
    }

    ghost predicate Valid()
      reads this
    {
      Inv(roles, State())
    }

    /** `initTypingAnimation`; the first step is then due after 1500 ms. */
    constructor (initialText: string)
      ensures Valid() && roles == Roles
      ensures State() == Initial() && typingSpeed == TypeDelay && textContent == initialText
    {
      roles := Roles;
      roleIndex, charIndex, isDeleting := 0, 0, false;
      typingSpeed := TypeDelay;
      textContent := initialText;
      InitialIsValid();
    }

    /** `typeRole`: one step; returns the delay it reschedules itself with. */
    method TypeRole() returns (delay: int)
      requires Valid()
      modifies this
      ensures Valid()
      ensures var o := Step(roles, old(State()));
              State() == o.next && textContent == o.text && typingSpeed == o.delay && delay == o.delay
    {
      StepKeepsInv(roles, State());
      var currentRole := roles[roleIndex];
      if isDeleting {
        textContent := Substring0(currentRole, charIndex - 1);
        charIndex := charIndex - 1;
        typingSpeed := DeleteDelay;
      } else {
        textContent := Substring0(currentRole, charIndex + 1);
        charIndex := charIndex + 1;
        typingSpeed := TypeDelay;
      }
      if !isDeleting && charIndex == |currentRole| {
        isDeleting := true;
        typingSpeed := HoldDelay;
      } else if isDeleting && charIndex == 0 {
        isDeleting := false;
        roleIndex := (roleIndex + 1) % |roles|;
        typingSpeed := NextRoleDelay;
      }
      delay := typingSpeed;
    }

    /** `k` rescheduled calls of `typeRole` in a row; returns the delays chosen. */
    method Animate(k: nat) returns (delays: seq<int>)
      requires Valid()
      modifies this
      ensures Valid()
      ensures var t := Run(roles, old(State()), k);
              && State() == t.last && delays == t.delays
              && textContent == (if k == 0 then old(textContent) else t.texts[k - 1])
              && typingSpeed == (if k == 0 then old(typingSpeed) else t.delays[k - 1])
    {
      ghost var s0 := State();
      delays := [];
      var i := 0;
      while i < k
        invariant 0 <= i <= k
        invariant Valid()
        invariant State() == Run(roles, s0, i).last
        invariant delays == Run(roles, s0, i).delays
        invariant textContent == if i == 0 then old(textContent) else Run(roles, s0, i).texts[i - 1]
        invariant typingSpeed == if i == 0 then old(typingSpeed) else Run(roles, s0, i).delays[i - 1]
      {
        RunSplit(roles, s0, i, 1);
        var d := TypeRole();
        delays := delays + [d];
        i := i + 1;
      }
    }
  }
}
