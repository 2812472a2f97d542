/**
 * The configuration of the tessnet network plugin (pkg/kubelet/network/tessnet/config.go):
 * where the configuration file is looked up, and the defaults filled into a configuration
 * that decoded. Reading the file and decoding its JSON are an input: the configuration
 * (possibly partly filled) and the error that decoding a given path yields.
 */
module TessnetConfig {
  import opened Wrappers

  datatype NetworkConfig = NetworkConfig(
    bridge: string,
    gateway: string,
    device: string,
    cidr: string,
    pipework: string,
    ovsDocker: string,
    containerSubnetPrefix: string,
    dockerBridgeIp: string,
    routerId: string,
    networkId: string,
    externalNetworkId: string,
    subnetId: string)

  datatype ComputeConfig = ComputeConfig(
    uuid: string, portId: string, name: string, floatingIp: string, fqdn: string, metaFile: string)

  datatype OpenstackCredentials = OpenstackCredentials(
    identityEndpoint: string, username: string, password: string, tenantId: string, region: string)

  datatype DockerConfig = DockerConfig(socket: string, backupFile: string)

  datatype KubernetesConfig = KubernetesConfig(authConfig: string, apiServer: string, hostname: string)

  /** A configuration as a value. */
  datatype ConfigValue = ConfigValue(
    network: NetworkConfig,
    compute: ComputeConfig,
    openstack: OpenstackCredentials,
    docker: DockerConfig,
    kube: KubernetesConfig)

  const DefaultConfigFile := "/etc/sysconfig/tess"
  const DefaultPipework := "pipework"
  const DefaultBridge := "obr0"
  const NoDeviceBridge := "eth1"
  const DefaultDockerSocket := "unix:///var/run/docker.sock"

  /** The configuration `fillDefaults` leaves behind, field by field. */
  function WithDefaults(c: ConfigValue): (d: ConfigValue)
    ensures d.network.device == c.network.device
    ensures d.network.pipework == (if c.network.pipework == "" then DefaultPipework else c.network.pipework)
    ensures d.network.bridge ==
              if c.network.device == "" then NoDeviceBridge
              else if c.network.bridge == "" then DefaultBridge
              else c.network.bridge
    ensures d.docker.socket == (if c.docker.socket == "" then DefaultDockerSocket else c.docker.socket)
    ensures d.network.(bridge := c.network.bridge, pipework := c.network.pipework) == c.network
    ensures d.docker.backupFile == c.docker.backupFile
    ensures d.compute == c.compute && d.openstack == c.openstack && d.kube == c.kube
  {
    var n0 := c.network;
    var n1 := if n0.pipework == "" then n0.(pipework := DefaultPipework) else n0;
    var n2 := if n1.bridge == "" then n1.(bridge := DefaultBridge) else n1;
    var n3 := if n2.device == "" then n2.(bridge := NoDeviceBridge) else n2;
    var docker := if c.docker.socket == "" then c.docker.(socket := DefaultDockerSocket) else c.docker;
    c.(network := n3, docker := docker)
  }

  /** After the defaults, pipework, bridge and the docker socket are never empty. */
  lemma DefaultsFillEmptyFields(c: ConfigValue)
    ensures WithDefaults(c).network.pipework != ""
    ensures WithDefaults(c).network.bridge != ""
    ensures WithDefaults(c).docker.socket != ""
  {
  }

  /** Filling the defaults twice is filling them once. */
  lemma DefaultsIdempotent(c: ConfigValue)
    ensures WithDefaults(WithDefaults(c)) == WithDefaults(c)
  {
  }

  /** The values of the sample configuration survive the defaults unchanged. */
  lemma SampleConfigKeepsValues(c: ConfigValue)
    requires c.network.bridge == "obr0" && c.network.gateway == "172.20.0.1"
    requires c.network.device == "eth0" && c.network.cidr == "172.20.0.0/24"
    requires c.network.pipework == "/opt/pipework/bin/pipework"
    requires c.docker.socket == "unix:///var/run/docker.sock"
    ensures WithDefaults(c) == c
  {
  }

  /** A configuration held by reference, as `fillDefaults` receives it. */
  class Config {
    var network: NetworkConfig
    var compute: ComputeConfig
    var openstack: OpenstackCredentials
    var docker: DockerConfig
    var kube: KubernetesConfig

    constructor (c: ConfigValue)
      ensures Value() == c
    {
      network := c.network;
      compute := c.compute;
      openstack := c.openstack;
      docker := c.docker;
      kube := c.kube;
    }

    function Value(): ConfigValue
      reads this
    {
      ConfigValue(network, compute, openstack, docker, kube)
    }

    /**
     * `fillDefaults`: an empty pipework path, bridge and docker socket get their defaults;
     * then an empty device overwrites the bridge with "eth1". It never fails.
     */
    method FillDefaults() returns (err: Option<string>)
      modifies this
      ensures err == None
      ensures Value() == WithDefaults(old(Value()))
    {
      if network.pipework == "" {
        network := network.(pipework := DefaultPipework);
      }
      if network.bridge == "" {
        network := network.(bridge := DefaultBridge);
      }
      if network.device == "" {
        network := network.(bridge := NoDeviceBridge);
      }
      if docker.socket == "" {
        docker := docker.(socket := DefaultDockerSocket);
      }
      return None;
    }
  }

  /** The file `InitConfig` reads: the argument, else the environment variable, else the default. */
  function ConfigPath(configFile: string, tessConfigEnv: string): (path: string)
    ensures configFile != "" ==> path == configFile
    ensures configFile == "" && tessConfigEnv != "" ==> path == tessConfigEnv
    ensures configFile == "" && tessConfigEnv == "" ==> path == DefaultConfigFile
    ensures path != ""
  {
    if configFile != "" then configFile
    else if tessConfigEnv != "" then tessConfigEnv
    else DefaultConfigFile
  }

  /**
   * `InitConfig`: `readConfig(path)` is what opening and decoding `path` yields (the decoded,
   * possibly partial, configuration and the error, if any). A decoding error returns that
   * configuration as decoded together with the error; otherwise the defaults are filled in.
   */
  method InitConfig(configFile: string, tessConfigEnv: string,
                    readConfig: string -> (ConfigValue, Option<string>))
    returns (config: ConfigValue, err: Option<string>)
    ensures readConfig(ConfigPath(configFile, tessConfigEnv)).1.Some? ==>
              (config, err) == readConfig(ConfigPath(configFile, tessConfigEnv))
    ensures readConfig(ConfigPath(configFile, tessConfigEnv)).1.None? ==>
              config == WithDefaults(readConfig(ConfigPath(configFile, tessConfigEnv)).0) && err == None
  {
    var file := configFile;
    if file == "" {
      file := tessConfigEnv;
      if file == "" {
        file := DefaultConfigFile;
      }
    }
    var decoded := readConfig(file);
    if decoded.1.Some? {
      return decoded.0, decoded.1;
    }
    var c := new Config(decoded.0);
    err := c.FillDefaults();
    config := c.Value();
  }
}
