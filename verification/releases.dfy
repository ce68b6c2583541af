/** The asset choice of `LidarrHelper.get_latest_release`: among the assets
    of the newest upstream release, the download URL of the first one whose
    name ends in `linux.tar.gz`. */
module Releases {
  import opened Python

  /** A release asset: its file name and its `browser_download_url`. */
  datatype Asset = Asset(name: string, browserDownloadUrl: string)

  const TarballSuffix := "linux.tar.gz"

  predicate IsLinuxTarball(a: Asset)
  {
    EndsWith(a.name, TarballSuffix)
  }

  /** The loop over the assets: returns the URL of the first Linux tarball in
      list order, or `None` when there is none. */
  method SelectLinuxTarball(assets: seq<Asset>) returns (url: Option<string>)
    ensures url.None? <==> forall i :: 0 <= i < |assets| ==> !IsLinuxTarball(assets[i])
    ensures url.Some? ==>
              exists k :: && 0 <= k < |assets|
                          && IsLinuxTarball(assets[k])
                          && url.value == assets[k].browserDownloadUrl
                          && forall j :: 0 <= j < k ==> !IsLinuxTarball(assets[j])
  {
    var i := 0;
    while i < |assets|
      invariant 0 <= i <= |assets|
      invariant forall j :: 0 <= j < i ==> !IsLinuxTarball(assets[j])
    {
      if IsLinuxTarball(assets[i]) {
        return Some(assets[i].browserDownloadUrl);
      }
      i := i + 1;
    }
    return None;
  }
}
