/** The two name lists the driver and the mounter service each keep. */
module OptionNames {

  /** GetKnownS3FSOptions */
  const KNOWN_S3FS_OPTIONS: set<string> := {
    "allow_other", "auto_cache", "cipher_suites",
    "connect_timeout", "curldbg", "dbglevel",
    "default_acl", "disable_noobj_cache", "endpoint",
    "gid", "ibm_iam_auth", "ibm_iam_endpoint",
    "instance_name", "kernel_cache", "max_background",
    "max_dirty_data", "max_stat_cache_size", "mp_umask",
    "multipart_size", "multireq_max", "parallel_count",
    "passwd_file", "ro", "readwrite_timeout",
    "retries", "sigv2", "sigv4",
    "stat_cache_expire", "uid", "umask",
    "url", "use_path_request_style", "use_xattr",
    "tmpdir", "use_cache"
  }

  /** The field tags of S3FSArgs. */
  const S3FS_TAGS: set<string> := {
    "allow_other", "auto_cache", "cipher_suites", "connect_timeout", "curldbg", "dbglevel", "default_acl",
    "disable_noobj_cache", "endpoint", "gid", "ibm_iam_auth", "ibm_iam_endpoint", "instance_name", "kernel_cache",
    "max_background", "max_dirty_data", "max_stat_cache_size", "mp_umask", "multipart_size", "multireq_max",
    "parallel_count", "passwd_file", "ro", "readwrite_timeout", "retries", "sigv2", "sigv4", "stat_cache_expire",
    "uid", "umask", "url", "use_path_request_style", "use_xattr", "add-mount-param"
  }

  lemma DriverNamesAreKnown()
    ensures {"sigv2", "use_path_request_style", "passwd_file", "url"} <= KNOWN_S3FS_OPTIONS
    ensures {"allow_other", "mp_umask", "endpoint"} <= KNOWN_S3FS_OPTIONS
    ensures {"ibm_iam_auth", "ibm_iam_endpoint", "default_acl", "cipher_suites"} <= KNOWN_S3FS_OPTIONS
    ensures {"ro", "gid", "uid", "tmpdir", "use_cache"} <= KNOWN_S3FS_OPTIONS
  {
  }

  lemma AddMountParamIsNotAnOption()
    ensures "add-mount-param" !in KNOWN_S3FS_OPTIONS
  {
  }

  /** The driver knows two options that the service does not decode. */
  lemma TagsAndKnownOptions()
    ensures S3FS_TAGS == KNOWN_S3FS_OPTIONS - {"tmpdir", "use_cache"} + {"add-mount-param"}
  {
  }
}
