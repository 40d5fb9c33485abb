/** The configuration values the core reads (the settings surface itself is not modelled). */
module Config {
  import opened Engine

  /** Debug override of the chute trigger: leave the rules alone, force it off, or force it on. */
  datatype OverrideMode = NoOverride | Never | All

  /** Who may use the chute. */
  datatype PermissionLevel = Everyone | HostOnly | ClientsOnly | NoOne

  datatype Settings = Settings(
    overrideTrigger: OverrideMode,
    chutePermission: PermissionLevel,
    requireInOrbit: bool,
    maxItemCount: int32)
}
