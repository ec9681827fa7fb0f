/** The Multi-Arch side report (debianSync.py lines 96 and 127-128): one line
    `"name version arch multiarch\n"` per stanza whose `multiarch` is set. */
module Report {
  import opened Base
  import opened Text
  import opened Stanza

  /** The report line for variables that are all assigned. */
  function FormatLine(name: string, version: string, arch: string, multiarch: string): string
  {
    name + " " + version + " " + arch + " " + multiarch + "\n"
  }

  /** The report write, done only when `multiarch` is set; formatting the line reads
      `pkgname`, `pkg_version` and `arch` in that order. */
  function ReportLine(f: Fields): (r: Result<Option<string>, Fault>)
    ensures r == Success(None) <==> MultiArch !in f
    ensures r.Success? && r.value.Some? <==>
              MultiArch in f && Package in f && Version in f && Architecture in f
    ensures r.Success? && r.value.Some? ==>
              r.value.value == FormatLine(f[Package], f[Version], f[Architecture], f[MultiArch])
    ensures r.Failure? ==> MultiArch in f && r.error.NameError? && r.error.key !in f
    ensures r.Failure? ==>
              && r.error.key in [Package, Version, Architecture]
              && (r.error.key != Package ==> Package in f)
              && (r.error.key == Architecture ==> Version in f)
  {
    if MultiArch !in f then Success(None)
    else if Package !in f then Failure(NameError(Package))
    else if Version !in f then Failure(NameError(Version))
    else if Architecture !in f then Failure(NameError(Architecture))
    else Success(Some(FormatLine(f[Package], f[Version], f[Architecture], f[MultiArch])))
  }

  /** A report line can be read back: when no value contains a space,
      the line is the four values joined by spaces and ended by a newline. */
  lemma FormatLineRoundTrip(name: string, version: string, arch: string, multiarch: string)
    requires ' ' !in name && ' ' !in version && ' ' !in arch && ' ' !in multiarch
    ensures var line := FormatLine(name, version, arch, multiarch);
            && line[|line| - 1] == '\n'
            && Split(line[..|line| - 1], " ") == [name, version, arch, multiarch]
  {
    var line := FormatLine(name, version, arch, multiarch);
    var parts := [name, version, arch, multiarch];
    assert Join([multiarch], " ") == multiarch;
    assert Join([arch, multiarch], " ") == arch + " " + multiarch;
    assert Join([version, arch, multiarch], " ") == version + " " + arch + " " + multiarch;
    assert Join(parts, " ") == name + " " + version + " " + arch + " " + multiarch;
    assert line[..|line| - 1] == Join(parts, " ");
    SingleCharPiece(name, ' ');
    SingleCharPiece(version, ' ');
    SingleCharPiece(arch, ' ');
    SingleCharPiece(multiarch, ' ');
    SplitUnique(line[..|line| - 1], " ", parts);
  }
}
