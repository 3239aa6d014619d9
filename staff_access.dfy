/** The staff pages of the attendance dashboard: who counts as staff, where everyone else is sent,
    and what a permitted staff user is shown on each of the four pages. */
module StaffAccess {
  import opened PyRuntime
  import opened AdvisorAdmin

  const StaffsGroup := "Staffs"
  const AdvisorsGroup := "Advisors"

  /** Where a redirect leads. */
  datatype Target = AdminIndex | AdvisorDashboard | Login | AttendancePage

  /** What a page answers: a redirect, with the error message flashed before it if any, or the
      named template rendered with the `user_group` label of its context, if it has one. */
  datatype Response =
    | Redirect(target: Target, message: Option<string>)
    | Render(template: string, userGroup: Option<string>)

  /** `check_staff_permission`: never for a superuser; otherwise a staff user who is in the Staffs
      group or is not in the Advisors group. */
  function CheckStaffPermission(u: User): bool {
    if u.isSuperuser then false
    else (u.isStaff && StaffsGroup in u.groups) || (u.isStaff && AdvisorsGroup !in u.groups)
  }

  /** The answer every staff page gives a user who fails the staff check. */
  function Denied(u: User): Response {
    if u.isSuperuser then
      Redirect(AdminIndex, Some("Access denied. Admins should use the admin panel."))
    else if AdvisorsGroup in u.groups then
      Redirect(AdvisorDashboard, Some("Access denied. Advisors should use the advisor dashboard."))
    else
      Redirect(Login, Some("Access denied. You don't have staff permissions."))
  }

  /** The `user_group` label of the attendance pages. */
  function UserGroup(u: User): string {
    if StaffsGroup in u.groups then "Staffs" else "General Staff"
  }

  /** `staff_dashboard`: a Staffs member goes on to the attendance page. */
  function StaffDashboard(u: User): Response {
    if !CheckStaffPermission(u) then Denied(u)
    else if StaffsGroup in u.groups then Redirect(AttendancePage, None)
    else Render("attendance_dashboard/staff_dashboard.html", None)
  }

  /** `attendance_view`: the attendance form. */
  function AttendanceView(u: User): Response {
    if !CheckStaffPermission(u) then Denied(u)
    else Render("shared/attendance_form.html", Some(UserGroup(u)))
  }

  /** `reports_view`: reports are for general staff only; a Staffs member is sent to the
      attendance page with an error. */
  function ReportsView(u: User): Response {
    if !CheckStaffPermission(u) then Denied(u)
    else if StaffsGroup in u.groups then
      Redirect(AttendancePage, Some("Access denied. Staff members can only mark attendance."))
    else Render("attendance_dashboard/reports.html", None)
  }

  /** `camera_attendance_view`: the camera page for taking attendance. */
  function CameraAttendanceView(u: User): Response {
    if !CheckStaffPermission(u) then Denied(u)
    else Render("shared/attendance_taking.html", Some(UserGroup(u)))
  }

  /** The staff check fails for every superuser, whatever its groups; for anyone else it holds
      exactly for a staff user in Staffs or outside Advisors. */
  lemma StaffPermissionRule(u: User)
    ensures u.isSuperuser ==> !CheckStaffPermission(u)
    ensures !u.isSuperuser ==>
      (CheckStaffPermission(u) <==> u.isStaff && (StaffsGroup in u.groups || AdvisorsGroup !in u.groups))
  {
  }

  /** Whoever passes the staff check is staff, and whoever is staff, no superuser and no advisor
      passes it. */
  lemma StaffPermissionBounds(u: User)
    ensures CheckStaffPermission(u) ==> u.isStaff && !u.isSuperuser
    ensures u.isStaff && !u.isSuperuser && AdvisorsGroup !in u.groups ==> CheckStaffPermission(u)
  {
  }

  /** The four pages refuse the same users in the same way, and a refused user is sent to the
      admin site exactly when it is a superuser, to the advisor dashboard exactly when it is an
      advisor (in Advisors but not a staff Staffs member), and to the login page exactly when it
      is neither a superuser, nor staff, nor an advisor. */
  lemma DenialPriority(u: User)
    requires !CheckStaffPermission(u)
    ensures StaffDashboard(u) == AttendanceView(u) == ReportsView(u) == CameraAttendanceView(u) == Denied(u)
    ensures Denied(u).Redirect? && Denied(u).message.Some?
    ensures Denied(u).target == AdminIndex <==> u.isSuperuser
    ensures Denied(u).target == AdvisorDashboard <==>
      !u.isSuperuser && AdvisorsGroup in u.groups && !(u.isStaff && StaffsGroup in u.groups)
    ensures Denied(u).target == Login <==> !u.isSuperuser && !u.isStaff && AdvisorsGroup !in u.groups
  {
  }

  /** A user the staff check admits is never sent away with an error, except that a Staffs
      member asking for reports is sent to the attendance page; the attendance and camera pages
      always render for it. */
  lemma PermittedPages(u: User)
    requires CheckStaffPermission(u)
    ensures AttendanceView(u).Render? && CameraAttendanceView(u).Render?
    ensures StaffDashboard(u) == (if StaffsGroup in u.groups then Redirect(AttendancePage, None)
                                  else Render("attendance_dashboard/staff_dashboard.html", None))
    ensures ReportsView(u).Render? <==> StaffsGroup !in u.groups
    ensures ReportsView(u).Redirect? ==> ReportsView(u).target == AttendancePage
  {
  }

  /** A page renders, for any user, exactly when the staff check admits it and, for the dashboard
      and the reports, the user is outside Staffs. */
  lemma RendersExactly(u: User)
    ensures AttendanceView(u).Render? <==> CheckStaffPermission(u)
    ensures CameraAttendanceView(u).Render? <==> CheckStaffPermission(u)
    ensures StaffDashboard(u).Render? <==> CheckStaffPermission(u) && StaffsGroup !in u.groups
    ensures ReportsView(u).Render? <==> CheckStaffPermission(u) && StaffsGroup !in u.groups
  {
  }

  /** The `user_group` label is "Staffs" exactly for a member of Staffs, otherwise "General Staff",
      and both attendance pages show it. */
  lemma UserGroupLabel(u: User)
    ensures UserGroup(u) == "Staffs" <==> StaffsGroup in u.groups
    ensures UserGroup(u) != "Staffs" ==> UserGroup(u) == "General Staff"
    ensures CheckStaffPermission(u) ==>
      AttendanceView(u).userGroup == CameraAttendanceView(u).userGroup == Some(UserGroup(u))
  {
  }
}
