/** Registration policy (src/config.rs): path prefixes and lease limits. */
module Policies {
  import opened Basics

  datatype Component = RootDir | CurDir | ParentDir | Normal(name: string)

  /** A path as its sequence of components; it is absolute when it starts at the root. */
  datatype Path = Path(components: seq<Component>) {
    predicate IsAbsolute() {
      components != [] && components[0] == RootDir
    }

    /** Component-wise prefix test: `/run/ab` does not start with `/run/a`. */
    predicate StartsWith(prefix: Path) {
      prefix.components <= components
    }
  }

  datatype RegistrationPolicy = RegistrationPolicy(
    listenPath: Path, permissions: string, allowedIpcPathPrefixes: seq<Path>,
    defaultLeaseSeconds: u64, maxLeaseSeconds: u64)
  {
    predicate IpcPathIsAllowed(ipcPath: Path) {
      && ipcPath.IsAbsolute()
      && exists prefix :: prefix in allowedIpcPathPrefixes && ipcPath.StartsWith(prefix)
    }

    function ValidatePolicy(): RelayResult<()> {
      if !listenPath.IsAbsolute() then
        Err(NewError("relative_registration_path", "config", "registration.listen_path must be absolute", false))
      else if allowedIpcPathPrefixes == [] then
        Err(NewError("empty_allowed_ipc_path_prefixes", "config",
                     "registration.allowed_ipc_path_prefixes must not be empty", false))
      else if exists prefix :: prefix in allowedIpcPathPrefixes && !prefix.IsAbsolute() then
        Err(NewError("relative_allowed_ipc_path_prefix", "config",
                     "each allowed IPC path prefix must be absolute", false))
      else if defaultLeaseSeconds == 0 || maxLeaseSeconds == 0 || defaultLeaseSeconds > maxLeaseSeconds then
        Err(NewError("invalid_registration_lease_policy", "config",
                     "registration lease values must be positive and default must not exceed max", false))
      else
        Ok(())
    }
  }
}
