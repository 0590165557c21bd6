/**
 One look at the registry: the `latest` tag is read first and refused when it is newer than the target,
 then the target version is read and compared with the expected evidence.
 */
module RegistryView {
  import opened Outcomes
  import opened Versions
  import opened ReleaseRecords
  import opened PublishPackage

  /** What the two registry queries and the download came back with. */
  datatype TagAnswer = NoTag | TagFails | Tagged(version: string, sri: string, url: string)

  datatype Content = Content(tarballSha512: string, manifestSha256: string, dependencies: map<string, string>)

  datatype TargetAnswer = NoTarget | TargetFails | Target(sri: string, url: string, content: Option<Content>)

  datatype Answer = Answer(latest: TagAnswer, target: TargetAnswer)

  /** The version is at least the tag; false when either is not a stable version. */
  predicate AtLeast(version: string, tag: string) { Compare(version, tag).Some? && Compare(version, tag).value >= 0 }

  /** `observeRegistryPackage`, with `observeLatestRegistryPackage` as its first half. */
  function Look(r: Record, a: Answer): Observed {
    if a.latest.TagFails? || (a.latest.Tagged? && !AtLeast(r.version, a.latest.version)) then Broken
    else
      match a.target
      case NoTarget => Absent
      case TargetFails => Broken
      case Target(sri, url, content) =>
        if a.latest.NoTag? then Lagging
        else if sri != r.expectedSri then Broken
        else if a.latest.version != r.version || a.latest.sri != sri || a.latest.url != url then Lagging
        else if content.None? then Broken
        else
          var c := content.value;
          var o := Observation(sri, c.tarballSha512, c.manifestSha256, c.dependencies, Some(a.latest.version));
          if Classify(r, Some(o)) == Conflict then Broken else Seen(o)
  }

  /** The answer that shows a package exactly as expected, with the tag on it. */
  predicate ShowsExpected(r: Record, a: Answer) {
    && a.latest.Tagged? && a.target.Target? && a.target.content.Some?
    && a.latest == Tagged(r.version, r.expectedSri, a.target.url) && a.target.sri == r.expectedSri
    && a.target.content.value == Content(r.tarballSha512, r.manifestSha256, r.dependencies)
  }

  /**
   A look finds a package exactly when both answers show it as expected and the tag names the target;
   what it returns is then exact, so no later assertion on it can fail.
   */
  lemma SeenExactly(r: Record, a: Answer)
    ensures Look(r, a).Seen? <==> StableVersion(r.version) && ShowsExpected(r, a)
    ensures Look(r, a).Seen? ==> Exact(r, Look(r, a).o)
  {
    CompareNeedsStable(r.version, r.version);
    hide Compare, StableVersion;
    if StableVersion(r.version) { CompareIsTotalOrder(r.version, r.version, r.version); }
  }

  lemma CompareNeedsStable(a: string, b: string)
    ensures Compare(a, b).Some? <==> StableVersion(a) && StableVersion(b)
  {
    hide StableVersion;
  }

  /** A version is reported absent exactly when its answer is missing and the shown tag is missing or not newer. */
  lemma AbsentExactly(r: Record, a: Answer)
    ensures Look(r, a).Absent? <==>
            a.target.NoTarget? && (a.latest.NoTag? || (a.latest.Tagged? && AtLeast(r.version, a.latest.version)))
  {
  }

  /** The shown tag does not stand in the way of the version. */
  predicate TagAllows(r: Record, t: TagAnswer) { t.NoTag? || (t.Tagged? && AtLeast(r.version, t.version)) }

  /**
   A look is worth repeating exactly when the expected bytes are listed, under a tag that is still behind or
   missing or names other bytes; a missing tag counts whatever the listed bytes are.
   */
  lemma LaggingExactly(r: Record, a: Answer)
    ensures Look(r, a).Lagging? <==>
            && a.target.Target? && TagAllows(r, a.latest)
            && (a.latest.Tagged? ==>
                  a.target.sri == r.expectedSri && a.latest != Tagged(r.version, r.expectedSri, a.target.url))
  {
    hide Compare;
  }

  /**
   A look ends the run exactly when a query fails, the tag is newer, or the listed bytes conflict: under a tag
   that is not newer the integrity differs, or the tag names the target and its content is missing or different.
   */
  lemma BrokenExactly(r: Record, a: Answer)
    ensures Look(r, a).Broken? <==>
            || a.latest.TagFails? || !TagAllows(r, a.latest) || a.target.TargetFails?
            || (&& a.latest.Tagged? && a.target.Target?
                && (|| a.target.sri != r.expectedSri
                    || (a.latest == Tagged(r.version, a.target.sri, a.target.url)
                        && a.target.content != Some(Content(r.tarballSha512, r.manifestSha256, r.dependencies)))))
  {
    hide Compare;
  }
}
