/** The validators of core/adminforms.py: `AdminForm.clean`,
    `AdminLevelChangeForm.clean` and the level choices of `AdminFilterForm`. */
module AdminForms {
  import opened Common
  import opened Models

  const CELL_REQUIRED: (string, string) := ("cell", "Cell is required for Cell level administrators.")
  const ALREADY_ADMIN: (string, string) := ("member", "This member already has an admin profile.")

  /** Some admin row belongs to `member`. */
  predicate HasAdminProfile(admins: map<nat, Admin>, member: nat) {
    exists k :: k in admins && admins[k].member == member
  }

  /** `AdminForm.clean`: a Cell admin needs a cell (checked first); a new admin
      (`saved` false) may not be created for a member that already has one.
      Nothing else is checked: not the other levels, not the assembly. */
  function CleanAdminForm(level: string, cell: Option<nat>, member: Option<nat>, saved: bool,
                          admins: map<nat, Admin>): (r: Result<(), (string, string)>)
    ensures r.Err? <==> (level == CELL_LEVEL && cell.None?)
                        || (member.Some? && !saved && HasAdminProfile(admins, member.value))
    ensures level == CELL_LEVEL && cell.None? ==> r == Err(CELL_REQUIRED)
    ensures r.Err? && !(level == CELL_LEVEL && cell.None?) ==> r == Err(ALREADY_ADMIN)
  {
    if level == CELL_LEVEL && cell.None? then Err(CELL_REQUIRED)
    else if member.Some? && !saved && exists k :: k in admins && admins[k].member == member.value then Err(ALREADY_ADMIN)
    else Ok(())
  }

  /** Updating an admin never trips the one-profile rule, whatever the table holds. */
  lemma {:induction false} UpdateSkipsProfileCheck(level: string, cell: Option<nat>, member: Option<nat>, admins: map<nat, Admin>)
    ensures CleanAdminForm(level, cell, member, true, admins) == CleanAdminForm(level, cell, None, false, map[])
  {
  }

  /** `AdminLevelChangeForm.clean`: only the "Cell needs a cell" rule. */
  function CleanLevelChange(level: string, cell: Option<nat>): (r: Result<(), (string, string)>)
    ensures r.Err? <==> level == CELL_LEVEL && cell.None?
    ensures r.Err? ==> r == Err(CELL_REQUIRED)
  {
    if level == CELL_LEVEL && cell.None? then Err(CELL_REQUIRED) else Ok(())
  }

  /** The values of `ADMIN_TYPE_CHOICES`. */
  lemma {:induction false} AdminTypeValues()
    ensures ChoiceValues(ADMIN_TYPE_CHOICES) == [SUPERADMIN, CELL_LEVEL, MODERATOR]
  {
    var v := ChoiceValues(ADMIN_TYPE_CHOICES);
    assert v[0] == SUPERADMIN && v[1] == CELL_LEVEL && v[2] == MODERATOR;
  }

  /** The bound `AdminLevelChangeForm` over `cellCount` stored cells. The
      model fields are cleaned first: `level` is required and must be a value
      of `ADMIN_TYPE_CHOICES`, and a chosen `cell` must be a stored cell. Then
      `clean` asks a Cell admin for a cell. */
  function LevelChangeForm(level: string, cell: Option<nat>, cellCount: nat): (r: Result<(), (string, string)>)
    ensures r.Ok? <==> (level == SUPERADMIN || level == MODERATOR || (level == CELL_LEVEL && cell.Some?))
                       && (cell.Some? ==> cell.value < cellCount)
    ensures r.Ok? ==> level in ChoiceValues(LEVEL_CHOICES)[1..]
    ensures level in ChoiceValues(ADMIN_TYPE_CHOICES) && (cell.Some? ==> cell.value < cellCount) ==>
              r == CleanLevelChange(level, cell)
  {
    AdminTypeValues();
    LevelChoicesAreTheLevels();
    assert ChoiceValues(LEVEL_CHOICES)[1..] == [SUPERADMIN, CELL_LEVEL, MODERATOR];
    if level == "" then Err(("level", "This field is required."))
    else if level !in ChoiceValues(ADMIN_TYPE_CHOICES) then Err(("level", "Select a valid choice."))
    else if cell.Some? && cell.value >= cellCount then Err(("cell", "Select a valid choice."))
    else CleanLevelChange(level, cell)
  }

  /** The level-change rule is the admin form's rule on a saved admin. */
  lemma {:induction false} LevelChangeIsAdminFormRule(level: string, cell: Option<nat>, member: Option<nat>, admins: map<nat, Admin>)
    ensures CleanLevelChange(level, cell) == CleanAdminForm(level, cell, member, true, admins)
  {
  }

  /** `AdminFilterForm.LEVEL_CHOICES`: "All Levels" followed by the admin levels. */
  const LEVEL_CHOICES: seq<(string, string)> := [("", "All Levels")] + ADMIN_TYPE_CHOICES

  function ChoiceValues(choices: seq<(string, string)>): (r: seq<string>)
    ensures |r| == |choices|
    ensures forall i :: 0 <= i < |r| ==> r[i] == choices[i].0
  {
    if choices == [] then [] else [choices[0].0] + ChoiceValues(choices[1..])
  }

  /** The filter offers "" and then exactly the three levels, each once. */
  lemma {:induction false} LevelChoicesAreTheLevels()
    ensures ChoiceValues(LEVEL_CHOICES) == ["", SUPERADMIN, CELL_LEVEL, MODERATOR]
    ensures LEVEL_CHOICES[1..] == ADMIN_TYPE_CHOICES
  {
    var v := ChoiceValues(LEVEL_CHOICES);
    assert v[0] == "" && v[1] == SUPERADMIN && v[2] == CELL_LEVEL && v[3] == MODERATOR;
  }
}
