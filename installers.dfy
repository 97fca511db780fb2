/**
 * Choice of the installer family whose silent-uninstall arguments are added to
 * a registry key that does not already uninstall quietly.
 */
module Installers {

  /**
   * The installer-type tag recorded with a registry key. The members the
   * uninstaller names are listed; Other stands for any further member of the
   * enumeration.
   */
  datatype InstallerType =
    | Unknown
    | Custom
    | Msi
    | Nsis
    | InnoSetup
    | InstallShield
    | Other(name: string)

  /** The installer classes the uninstaller can instantiate. */
  datatype InstallerKind = MsiInstaller | InnoSetupInstaller | NsisInstaller | CustomInstaller

  /**
   * What build_uninstall_command_arguments returns for each installer class.
   * Those classes are not part of this model, so their fragments are taken as
   * given strings.
   */
  datatype UninstallFragments = UninstallFragments(msi: string, innoSetup: string, nsis: string, custom: string)
  {
    function For(kind: InstallerKind): string
    {
      match kind
      case MsiInstaller => msi
      case InnoSetupInstaller => innoSetup
      case NsisInstaller => nsis
      case CustomInstaller => custom
    }
  }

  /**
   * The switch over the installer type: Msi, InnoSetup and Nsis each get their
   * own installer; InstallShield and every other tag keep the CustomInstaller
   * the uninstaller starts from.
   */
  function SelectInstaller(t: InstallerType): (kind: InstallerKind)
    ensures kind == MsiInstaller <==> t == Msi
    ensures kind == InnoSetupInstaller <==> t == InnoSetup
    ensures kind == NsisInstaller <==> t == Nsis
    ensures kind == CustomInstaller <==> t != Msi && t != InnoSetup && t != Nsis
  {
    match t
    case Msi => MsiInstaller
    case InnoSetup => InnoSetupInstaller
    case Nsis => NsisInstaller
    case InstallShield => CustomInstaller
    case _ => CustomInstaller
  }

  /** Every installer kind is reached by some tag, and a dedicated kind by exactly one. */
  lemma SelectInstallerOnto(kind: InstallerKind)
    ensures exists t :: SelectInstaller(t) == kind
    ensures kind != CustomInstaller ==> forall t, u :: SelectInstaller(t) == kind && SelectInstaller(u) == kind ==> t == u
  {
    match kind
    case MsiInstaller => assert SelectInstaller(Msi) == kind;
    case InnoSetupInstaller => assert SelectInstaller(InnoSetup) == kind;
    case NsisInstaller => assert SelectInstaller(Nsis) == kind;
    case CustomInstaller => assert SelectInstaller(Unknown) == kind;
  }
}
