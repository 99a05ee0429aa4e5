// The typing effect of the hero section: it types one role title character
// by character, deletes it again, and moves on to the next role.

module TypingEffect {

  /** The roles shown, in order. */
  const Roles: seq<string> := ["Software Engineer", "AI Engineer", "UI/UX Engineer", "Full Stack Developer"]

  /** The three fields `type` updates. */
  datatype Cursor = Cursor(roleIndex: nat, charIndex: nat, isDeleting: bool)

  /** Every role has at least one character, so typing always has something to do. */
  predicate RolesOk(roles: seq<string>)
  {
    |roles| > 0 && forall r :: 0 <= r < |roles| ==> |roles[r]| > 0
  }

  /**
   * The states `type` can be called in: a role in range, a character index
   * within it, at least one character shown while deleting and the role not
   * yet complete while typing.
   */
  predicate Inv(roles: seq<string>, c: Cursor)
  {
    c.roleIndex < |roles| &&
    c.charIndex <= |roles[c.roleIndex]| &&
    (c.isDeleting ==> c.charIndex > 0) &&
    (!c.isDeleting ==> c.charIndex < |roles[c.roleIndex]|)
  }

  /** The text shown for a cursor: the first charIndex characters of the current role. */
  function Shown(roles: seq<string>, c: Cursor): string
    requires Inv(roles, c)
  {
    roles[c.roleIndex][..c.charIndex]
  }

  /** The fields after one call of `type`. */
  function Step(roles: seq<string>, c: Cursor): (r: Cursor)
    requires RolesOk(roles) && Inv(roles, c)
    ensures Inv(roles, r)
  {
    if c.isDeleting then
      var ci := c.charIndex - 1;
      if ci == 0 then Cursor((c.roleIndex + 1) % |roles|, 0, false)
      else Cursor(c.roleIndex, ci, true)
    else
      var ci := c.charIndex + 1;
      if ci == |roles[c.roleIndex]| then Cursor(c.roleIndex, ci, true)
      else Cursor(c.roleIndex, ci, false)
  }

  class Typer {
    const roles: seq<string>
    var roleIndex: nat
    var charIndex: nat
    var isDeleting: bool
    /** The text content of the `.typing-text` element. */
    var text: string

    function State(): Cursor
      reads this
    {
      Cursor(roleIndex, charIndex, isDeleting)
    }

    ghost predicate Valid()
      reads this
    {
      RolesOk(roles) && Inv(roles, State())
    }

    /**
     * The constructor and `init`: the first role at index 0, typing; when
     * the element exists the first call of `type` happens at once.
     */
    constructor (hasElement: bool)
      ensures Valid() && roles == Roles
      ensures !hasElement ==> State() == Cursor(0, 0, false)
      ensures hasElement ==> State() == Step(Roles, Cursor(0, 0, false)) && text == Shown(roles, State())
    {
      roles := Roles;
      roleIndex, charIndex, isDeleting := 0, 0, false;
      text := "";
      new;
      if hasElement {
        Type();
      }
    }

    /** One call of `type`; the delay before the next call is left to the caller. */
    method Type()
      requires Valid()
      modifies this
      ensures Valid()
      ensures State() == Step(roles, old(State()))
      ensures text == Shown(roles, State())
    {
      var currentRole := roles[roleIndex];
      if isDeleting {
        text := currentRole[..charIndex - 1];
        charIndex := charIndex - 1;
        if charIndex == 0 {
          isDeleting := false;
          roleIndex := (roleIndex + 1) % |roles|;
          return;
        }
      } else {
        text := currentRole[..charIndex + 1];
        charIndex := charIndex + 1;
        if charIndex == |currentRole| {
          isDeleting := true;
          return;
        }
      }
    }
  }

  /** The fields after k calls of `type`. */
  function Steps(roles: seq<string>, c: Cursor, k: nat): (r: Cursor)
    requires RolesOk(roles) && Inv(roles, c)
    ensures Inv(roles, r)
    decreases k
  {
    if k == 0 then c else Steps(roles, Step(roles, c), k - 1)
  }

  /**
   * `isDeleting` turns on exactly when typing reaches the end of the role,
   * and turns off exactly when deleting reaches index 0; only then does the
   * role change, to the next one in cyclic order.
   */
  lemma StepFlags(roles: seq<string>, c: Cursor)
    requires RolesOk(roles) && Inv(roles, c)
    ensures var r := Step(roles, c);
      (!c.isDeleting && r.isDeleting <==> !c.isDeleting && c.charIndex + 1 == |roles[c.roleIndex]|) &&
      (c.isDeleting && !r.isDeleting <==> c.isDeleting && c.charIndex == 1) &&
      (r.roleIndex != c.roleIndex ==> c.isDeleting && c.charIndex == 1 && r.charIndex == 0) &&
      (c.isDeleting && c.charIndex == 1 ==> r.roleIndex == (c.roleIndex + 1) % |roles|) &&
      (c.isDeleting ==> r.charIndex + 1 == c.charIndex) &&
      (!c.isDeleting ==> r.charIndex == c.charIndex + 1)
  {
  }

  /** Typing from index i for |role| - i steps shows the whole role. */
  lemma {:induction false} TypesToEnd(roles: seq<string>, c: Cursor)
    requires RolesOk(roles) && Inv(roles, c) && !c.isDeleting
    ensures var len := |roles[c.roleIndex]|;
      Steps(roles, c, len - c.charIndex) == Cursor(c.roleIndex, len, true)
    decreases |roles[c.roleIndex]| - c.charIndex
  {
    var len := |roles[c.roleIndex]|;
    var next := Step(roles, c);
    if c.charIndex + 1 < len {
      TypesToEnd(roles, next);
    }
  }

  /** Deleting from index i for i steps clears the role and selects the next one. */
  lemma {:induction false} DeletesToStart(roles: seq<string>, c: Cursor)
    requires RolesOk(roles) && Inv(roles, c) && c.isDeleting
    ensures Steps(roles, c, c.charIndex) == Cursor((c.roleIndex + 1) % |roles|, 0, false)
    decreases c.charIndex
  {
    if c.charIndex > 1 {
      DeletesToStart(roles, Step(roles, c));
    }
  }

  lemma {:induction false} StepsAdd(roles: seq<string>, c: Cursor, j: nat, k: nat)
    requires RolesOk(roles) && Inv(roles, c)
    ensures Steps(roles, c, j + k) == Steps(roles, Steps(roles, c, j), k)
    decreases j
  {
    if j > 0 {
      StepsAdd(roles, Step(roles, c), j - 1, k);
    }
  }

  /**
   * One full cycle: from the empty text of role r, 2 * |role| calls of
   * `type` type it out, delete it, and leave the empty text of role r + 1
   * (mod the number of roles).
   */
  lemma RoleCycle(roles: seq<string>, r: nat)
    requires RolesOk(roles) && r < |roles|
    ensures Steps(roles, Cursor(r, 0, false), 2 * |roles[r]|) == Cursor((r + 1) % |roles|, 0, false)
  {
    var len := |roles[r]|;
    var start := Cursor(r, 0, false);
    TypesToEnd(roles, start);
    StepsAdd(roles, start, len, len);
    DeletesToStart(roles, Cursor(r, len, true));
  }

  /** The page's roles satisfy what `type` needs. */
  lemma RolesNonEmpty()
    ensures RolesOk(Roles) && |Roles| == 4
  {
  }
}
