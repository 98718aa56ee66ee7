/** The names under which metrics are listed and requested. */
module Metrics {
  datatype MetricType = Custom | External

  datatype CustomMetricInfo = CustomMetricInfo(group: string, resource: string, namespaced: bool, metric: string)

  datatype ExternalMetricInfo = ExternalMetricInfo(metric: string)
}
