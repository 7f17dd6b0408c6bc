/** The shapes of the static machine and disk catalogs. Their contents are
    data outside this model: every operation takes a catalog as an
    argument. */
module Catalog {
  import opened Common

  datatype ScreenSize = ScreenSize(width: int, height: int)

  /** A machine definition, as far as this core looks at it: the emulator
      backend it runs on and an optional fixed screen size. */
  datatype Machine = Machine(name: string, emulator: string, fixedScreenSize: Option<ScreenSize>)

  /** An entry of the domain-keyed disk catalog. */
  datatype DiskDef = DiskDef(name: string, machine: Machine)

  /** An entry of the system-disk catalog offered by the custom editor. */
  datatype SystemDiskDef = SystemDiskDef(name: string, hasPlatinumAppearance: bool)
}
