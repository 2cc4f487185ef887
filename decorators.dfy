/** The `role_required` decorator of core/decorators.py: the decision it
    takes before a view runs. The admin profile lookup
    `Admin.objects.get(member=request.user)` is a parameter: `None` is
    `Admin.DoesNotExist` (the member key is one-to-one, so there is at most
    one row). `Admin.role` is not a field of the repository's `Admin` model;
    here it is the `role` field of the record. */
module Decorators {
  import opened Common
  import opened Models

  /** What the wrapped view returns: a redirect, a 403 with its message, or
      whatever the view itself answered. */
  datatype Response<R> = Redirect(to: string) | Forbidden(message: string) | View(reply: R)

  const LOGIN: string := "login"
  const NO_PROFILE: string := "No admin profile found."
  const NOT_AUTHORIZED: string := "You are not authorized to view this page."

  /** `_wrapped_view`: login first, then the profile, then the role. `view`
      is the wrapped view applied to the request's own arguments; the
      decorator answers with it unchanged when the role is allowed.
      `redirectTo` "" is `redirect_to=None` (both are falsy). */
  function RoleRequired<R>(allowedRoles: seq<string>, redirectTo: string, authenticated: bool,
                           profile: Option<Admin>, view: R): (r: Response<R>)
    ensures r.View? <==> authenticated && profile.Some? && profile.value.role in allowedRoles
    ensures r.View? ==> r.reply == view
    ensures !authenticated ==> r == Redirect(LOGIN)
    ensures authenticated && profile.None? ==> r == Forbidden(NO_PROFILE)
    ensures authenticated && profile.Some? && profile.value.role !in allowedRoles ==>
              r == (if redirectTo != "" then Redirect(redirectTo) else Forbidden(NOT_AUTHORIZED))
  {
    if !authenticated then Redirect(LOGIN)
    else if profile.None? then Forbidden(NO_PROFILE)
    else if profile.value.role in allowedRoles then View(view)
    else if redirectTo != "" then Redirect(redirectTo)
    else Forbidden(NOT_AUTHORIZED)
  }

  /** Only the role matters once a profile is found: two profiles with the
      same role get the same answer. */
  lemma {:induction false} RoleIsAllThatMatters<R>(allowedRoles: seq<string>, redirectTo: string, a: Admin, b: Admin, view: R)
    requires a.role == b.role
    ensures RoleRequired(allowedRoles, redirectTo, true, Some(a), view)
         == RoleRequired(allowedRoles, redirectTo, true, Some(b), view)
  {
  }

  /** Widening the allowed roles never turns an admitted request away. */
  lemma {:induction false} MoreRolesAdmitMore<R>(allowed: seq<string>, wider: seq<string>, redirectTo: string, authenticated: bool,
                              profile: Option<Admin>, view: R)
    requires forall x :: x in allowed ==> x in wider
    ensures RoleRequired(allowed, redirectTo, authenticated, profile, view).View? ==>
              RoleRequired(wider, redirectTo, authenticated, profile, view) == RoleRequired(allowed, redirectTo, authenticated, profile, view)
  {
  }

  /** With no roles allowed the view is never reached. */
  lemma {:induction false} NoRolesNoView<R>(redirectTo: string, authenticated: bool, profile: Option<Admin>, view: R)
    ensures !RoleRequired([], redirectTo, authenticated, profile, view).View?
  {
  }
}
