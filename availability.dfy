/** `isAppAvailable`: the app is open unless the maintenance flag of the
    `admin_settings` row is set, and then only to the privileged roles. The query
    is an input: `data` is what `.single()` returned. */
module Availability {
  import opened Wrappers

  /** The `admin_settings` row, with its `app_maintenance_mode` column, which may be
      null. */
  datatype SettingsRow = SettingsRow(appMaintenanceMode: Option<bool>)

  /** The role assumed when the caller passes none. */
  const DefaultRole: string := "citizen"

  /** The roles that may use the app during maintenance. */
  const PrivilegedRoles: seq<string> := ["admin", "app_owner"]

  /** `data?.app_maintenance_mode` is truthy: there is a row and its flag is true. */
  predicate MaintenanceOn(data: Option<SettingsRow>)
  {
    data.Some? && data.value.appMaintenanceMode == Some(true)
  }

  /** `isAppAvailable(userRole)`, given the settings row the query returned (None
      when `data` is null: no row, several rows, or a failed query). */
  function IsAppAvailable(data: Option<SettingsRow>, userRole: string): (available: bool)
    // no settings row: open to everyone
    ensures data.None? ==> available
    // flag false or null: open to everyone
    ensures data.Some? && data.value.appMaintenanceMode != Some(true) ==> available
    // flag set: open exactly to the admin and the app owner
    ensures data == Some(SettingsRow(Some(true))) ==>
      (available <==> userRole == "admin" || userRole == "app_owner")
  {
    !MaintenanceOn(data) || userRole in PrivilegedRoles
  }

  /** A citizen, the default role, is shut out during maintenance. */
  lemma DefaultRoleBlockedInMaintenance()
    ensures !IsAppAvailable(Some(SettingsRow(Some(true))), DefaultRole)
  {
  }

  /** The admin and the app owner are never shut out, whatever the settings row. */
  lemma PrivilegedAlwaysAvailable(data: Option<SettingsRow>, userRole: string)
    requires userRole in PrivilegedRoles
    ensures IsAppAvailable(data, userRole)
  {
  }
}
