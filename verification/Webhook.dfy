/** Names the parts of the webhook agree on. */
module Webhook {
  /** Where the instrumentation is mounted, and the library the loader is made to preload from there. */
  const MOUNT_PATH: string := "/__otel_sdk_auto_instrumentation__"
  const PRELOAD_VARIABLE: string := "LD_PRELOAD"
  const PRELOAD_VALUE: string := MOUNT_PATH + "/dist/injector/libotelinject.so"

  /** The variable and the label that carry the version a process or a pod was instrumented with. */
  const VERSION_VARIABLE: string := "BEYLA_INJECTOR_SDK_PKG_VERSION"
  const INSTRUMENTED_LABEL: string := "com.grafana.beyla/instrumented"
}
