/**
 * The directories of the studio's file servers that both versions of the tool configure. Each
 * constant is the literal text of the configured string, built up from its parent directory so
 * that two of them can be told apart at the position where they fork.
 */
module Sites {
  import opened Glob

  const Volumes: string := "/Volumes/"
  const RndArea: string := Volumes + "rnd/"
  /** The directory holding the release areas. */
  const PackagesArea: string := RndArea + "oa_pipeline.v2/" + "packages/"
  /** The internal release area: the package root of both versions. */
  const ReleaseArea: string := PackagesArea + "int/"
  /** The external release area. */
  const ExternalArea: string := PackagesArea + "ext/"
  const ToolboxArea: string := RndArea + "toolbox/"
  /** One user's private package installation. */
  const ProfilePackages: string := Volumes + "profiles/" + "tahmed/" + ".oa-packages-v2/"
  /** One developer's area next to the release areas. */
  const DeveloperArea: string := PackagesArea + "dev/" + "talha.ahmed/"

  /** None of the stems contains a wildcard, so `<stem>*` is a prefix test. Each directory
      inherits this from its parent. */
  lemma RndAreaIsLiteral()
    ensures IsLiteral(RndArea)
  {
    LiteralConcat(Volumes, "rnd/");
  }

  lemma PackagesAreaIsLiteral()
    ensures IsLiteral(PackagesArea)
  {
    RndAreaIsLiteral();
    LiteralConcat(RndArea, "oa_pipeline.v2/");
    LiteralConcat(RndArea + "oa_pipeline.v2/", "packages/");
  }

  lemma DeveloperAreaIsLiteral()
    ensures IsLiteral(DeveloperArea)
  {
    PackagesAreaIsLiteral();
    LiteralConcat(PackagesArea, "dev/");
    LiteralConcat(PackagesArea + "dev/", "talha.ahmed/");
  }

  lemma ProfileIsLiteral()
    ensures IsLiteral(Volumes + "profiles/" + "tahmed/")
  {
    LiteralConcat(Volumes, "profiles/");
    LiteralConcat(Volumes + "profiles/", "tahmed/");
  }

  lemma ProfilePackagesIsLiteral()
    ensures IsLiteral(ProfilePackages)
  {
    ProfileIsLiteral();
    LiteralConcat(Volumes + "profiles/" + "tahmed/", ".oa-packages-v2/");
  }

  lemma StemsAreLiteral()
    ensures IsLiteral(ExternalArea) && IsLiteral(ToolboxArea) && IsLiteral(DeveloperArea)
    ensures IsLiteral(ProfilePackages) && IsLiteral("/opt/")
  {
    RndAreaIsLiteral();
    PackagesAreaIsLiteral();
    LiteralConcat(PackagesArea, "ext/");
    LiteralConcat(RndArea, "toolbox/");
    DeveloperAreaIsLiteral();
    ProfilePackagesIsLiteral();
  }

  /** The release root read as a pattern: `oa_pipeline.v2` holds a `.`. */
  lemma ReleaseAreaHasDot()
    ensures ReleaseArea == RndArea + "oa_pipeline" + "." + "v2/packages/int/"
  {
    assert "oa_pipeline.v2/" + "packages/" + "int/" == "oa_pipeline" + "." + "v2/packages/int/";
    assert ReleaseArea == RndArea + ("oa_pipeline.v2/" + "packages/" + "int/");
  }
}
