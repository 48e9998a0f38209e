/** The environment-dependent configuration of `src/config.js`: which
    environment the build runs in, the two fixed configurations, and the two
    URL builders. The build flags `import.meta.env.PROD` and
    `import.meta.env.VITE_ENV` are parameters. */
module Config {
  import opened Wrappers
  import opened Strings

  datatype Api = Api(
    capabilitiesBaseUrl: string,
    layersInfoUrl: string,
    languagesGeojsonUrl: string,
    mapStyleUrl: string)

  datatype GitHub = GitHub(base: string, branch: string, tegolaConfigPath: string)

  datatype EnvConfig = EnvConfig(
    api: Api,
    openHistoricalMap: string,
    vectorTiles: string,
    github: GitHub)

  const StagingConfig := EnvConfig(
    Api("https://vtiles.staging.openhistoricalmap.org/capabilities",
        "http://planet-staging.openhistoricalmap.org.s3.amazonaws.com/vtiles_layers_info.json",
        "http://planet-staging.openhistoricalmap.org.s3.amazonaws.com/vtiles_languages.geojson",
        "https://www.staging.openhistoricalmap.org/map-styles/historical/historical.json"),
    "https://staging.openhistoricalmap.org",
    "https://vtiles.staging.openhistoricalmap.org",
    GitHub("https://github.com/OpenHistoricalMap/ohm-deploy", "staging", "images/tiler-server"))

  const ProductionConfig := EnvConfig(
    Api("https://vtiles.openhistoricalmap.org/capabilities",
        "https://planet.openhistoricalmap.org.s3.amazonaws.com/vtiles_layers_info.json",
        "https://planet.openhistoricalmap.org.s3.amazonaws.com/vtiles_languages.geojson",
        "https://www.openhistoricalmap.org/map-styles/historical/historical.json"),
    "https://openhistoricalmap.org",
    "https://vtiles.openhistoricalmap.org",
    GitHub("https://github.com/OpenHistoricalMap/ohm-deploy", "main", "images/tiler-server"))

  /** `getEnvironment()`: an explicit `VITE_ENV` (absent and "" are unset)
      overrides the build mode; otherwise a production build is
      "production" and any other build "staging". */
  function GetEnvironment(prod: bool, viteEnv: Option<string>): (env: string)
    ensures viteEnv.Some? && viteEnv.value != "" ==> env == viteEnv.value
    ensures (viteEnv.None? || viteEnv.value == "") ==> env == if prod then "production" else "staging"
  {
    if prod then OrElse(viteEnv, "production") else OrElse(viteEnv, "staging")
  }

  /** `environment === 'production' ? productionConfig : stagingConfig` */
  function SelectConfig(env: string): (c: EnvConfig)
    ensures c == ProductionConfig <==> env == "production"
    ensures c == StagingConfig <==> env != "production"
  {
    if env == "production" then ProductionConfig else StagingConfig
  }

  /** A build selects the production configuration exactly when `VITE_ENV`
      says "production", or it is unset and the build is a production
      build; an unknown `VITE_ENV` selects staging even in production mode. */
  lemma ProductionSelection(prod: bool, viteEnv: Option<string>)
    ensures SelectConfig(GetEnvironment(prod, viteEnv)) == ProductionConfig
      <==> (viteEnv == Some("production") || (prod && (viteEnv.None? || viteEnv.value == "")))
  {
  }

  /** The GitHub branch follows the configuration; the Tegola path does not. */
  lemma GitHubBranchPerEnvironment(env: string)
    ensures SelectConfig(env).github.branch == if env == "production" then "main" else "staging"
    ensures SelectConfig(env).github.tegolaConfigPath == "images/tiler-server"
    ensures SelectConfig(env).github.base == "https://github.com/OpenHistoricalMap/ohm-deploy"
  {
  }

  /** `api.getMapCapabilitiesUrl(mapName)` */
  function MapCapabilitiesUrl(c: EnvConfig, mapName: string): (url: string)
    ensures StartsWith(url, c.api.capabilitiesBaseUrl + "/")
    ensures |url| == |c.api.capabilitiesBaseUrl| + |mapName| + 6
    ensures url[|url| - 5..] == ".json"
  {
    c.api.capabilitiesBaseUrl + "/" + mapName + ".json"
  }

  /** The inverse of `MapCapabilitiesUrl`: the map name a capabilities URL names. */
  function MapNameOfCapabilitiesUrl(c: EnvConfig, url: string): (r: Option<string>)
    ensures r.Some? ==> MapCapabilitiesUrl(c, r.value) == url
  {
    var pre := c.api.capabilitiesBaseUrl + "/";
    if |url| >= |pre| + 5 && url[..|pre|] == pre && url[|url| - 5..] == ".json"
    then
      var name := url[|pre|..|url| - 5];
      assert url == url[..|pre|] + name + url[|url| - 5..];
      Some(name)
    else None
  }

  lemma MapCapabilitiesUrlRoundTrip(c: EnvConfig, mapName: string)
    ensures MapNameOfCapabilitiesUrl(c, MapCapabilitiesUrl(c, mapName)) == Some(mapName)
  {
    var pre := c.api.capabilitiesBaseUrl + "/";
    var url := MapCapabilitiesUrl(c, mapName);
    assert url == pre + mapName + ".json";
    assert url[..|pre|] == pre;
    assert url[|pre|..|url| - 5] == mapName;
  }

  /** Different maps are fetched from different URLs. */
  lemma MapCapabilitiesUrlInjective(c: EnvConfig, m1: string, m2: string)
    requires MapCapabilitiesUrl(c, m1) == MapCapabilitiesUrl(c, m2)
    ensures m1 == m2
  {
    MapCapabilitiesUrlRoundTrip(c, m1);
    MapCapabilitiesUrlRoundTrip(c, m2);
  }

  /** `links.github.getTegolaConfigUrl(configPath)` */
  function TegolaConfigUrl(c: EnvConfig, configPath: string): (url: string)
    ensures StartsWith(url, c.github.base + "/blob/" + c.github.branch + "/")
  {
    c.github.base + "/blob/" + c.github.branch + "/" + c.github.tegolaConfigPath + "/" + configPath
  }

  /** The inverse of `TegolaConfigUrl`: the config path a GitHub URL names. */
  function ConfigPathOfTegolaUrl(c: EnvConfig, url: string): (r: Option<string>)
    ensures r.Some? ==> TegolaConfigUrl(c, r.value) == url
  {
    var pre := c.github.base + "/blob/" + c.github.branch + "/" + c.github.tegolaConfigPath + "/";
    if |pre| <= |url| && url[..|pre|] == pre
    then
      assert url == url[..|pre|] + url[|pre|..];
      Some(url[|pre|..])
    else None
  }

  lemma TegolaConfigUrlRoundTrip(c: EnvConfig, configPath: string)
    ensures ConfigPathOfTegolaUrl(c, TegolaConfigUrl(c, configPath)) == Some(configPath)
  {
    var pre := c.github.base + "/blob/" + c.github.branch + "/" + c.github.tegolaConfigPath + "/";
    var url := TegolaConfigUrl(c, configPath);
    assert url == pre + configPath;
    assert url[..|pre|] == pre;
  }
}
